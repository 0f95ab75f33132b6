# A verified model of voie

voie is a small HTTP/1.1 server written in C++. This project models the parts of it that do not depend on the
kernel and proves, in Dafny 4.11, what they compute. `dafny verify dfyconfig.toml` checks everything.

## What is modelled

**Routing.** `Patterns` reads a route pattern as a string of tokens in which slashes between tokens are forgotten;
that is what the trie itself does, because insertion and search both skip one `/` after an edge. `Trie` is the
radix trie as a value, with insertion and edge splitting. `TrieInsert` says what one insertion does to the routes and
to the node positions the trie denotes. `TrieSearch` is the backtracking search, proved to pick the
lexicographically first accepting trace (static before parameter before catch-all). `TrieRoutes` connects traces with
texts, and `Routing` states the results about whole registration histories, refused registrations included. `Lookups`
says for any history which route a lookup finds: the preferred one of those that match the path token by token.
`Router` is the router as it runs: linked nodes rewritten in place, a match record with a capture array that is pushed
and popped while backtracking; it refines the value model. `Precedence` shows that static routes come first.
`TrieRefused`, `TrieWitness` and `Refusals` are about registrations that are refused: which nodes they leave behind,
when that changes no lookup, and a path that shows the change when it does. `Surprises` holds concrete registrations
that show where the router does less than one might expect, and says when a pattern can be registered twice.

**Text algorithms.** `Normalize` (dot segments), `UrlDecode` (percent decoding) and `Decimal` (Content-Length digits,
number printing) pair each in-place loop with an independent specification and prove what that specification is for.

**Requests and responses.** `HttpParser` is request framing over an unseen head parser. `Ctx` is the handler's
response table and the execution of handler chains; `Terminal` says what the calls after the first terminal one still
change. `Chains` is the order in which a chain runs around next(). `Query` is query-parameter access. `Response`
computes the exact size of a response, prints it through a moving index, and reads it back with a reference reader
that refuses lengths in conflict and codings it does not know, and that ends a message at its blank line for HEAD
requests, 1xx, 204 and 304 (section 3.3.3 of RFC 7230). `SizeT` and `Arena` are the bump arena, with the alignment
mask and every sum over 64-bit words.

**The protocol.** `Serve` is the answer to the bytes in the 4096-byte receive buffer as a function; `Requests` follows
a request from those bytes through what its handlers see (`Patching` for the path) to the page they leave, and
`Answers` says which requests get which answer. `Protocol` is one connection as a transition system, `Slots` the whole
server (slot table, free list, events from the network, the peers and the clock), `PeerView` the output stream, error
pages and closing answers included, as a peer reads it that knows no more than which of its own requests were HEAD.
`OutOfStep` is a history in which such a peer loses its place. `Connection`, `EventLoop` and `EpollLoop` are the
corresponding objects: a receive buffer edited in place, a response in arena memory, handlers run over them, the slot
table, the registered interests, the break flags and the drain loops. Every method of `EpollLoop` is proved to be a
step of `Slots`; its invariant says that the state was reached by a possible history, so the whole-run results hold of
the objects.

Bytes are `char` values; a `string_view` into the receive buffer is an offset and a length. The head parser
(picohttpparser) is a parameter of which three things are assumed (`HttpParser.ValidHeadParser`): the empty input is
incomplete; a complete head is non-empty and holds its own slices, method before target before headers; success and
failure do not change when more bytes arrive. `HttpParser.OneHeadIsValid` shows that the assumptions can be met. Clock
readings and Date texts (without line breaks) are parameters; handlers are arbitrary terminating programs that may
inspect the request and the response under construction, call the rest of the chain, and throw.

Where documentation and code differ, the model follows the code:

- include/voie/ctx.h:25-27 says that only the first terminal response call takes effect. A `redirect` after another
  one still replaces the status code and sets Location. A later terminal call does nothing exactly when it is no
  redirect, or a redirect to the status and Location that are there already (`Ctx.RedirectAfterSend`); for a whole chain,
  later `status`, `set` and `redirect` calls leave the page as the first terminal call made it exactly when it was
  prebuilt, or the last status named is its own and every header named ends with the value it had
  (`Terminal.FirstTerminalDecides`). A text followed by a redirect never does (`Terminal.RedirectOverText`).
- A response to HEAD carries no body (section 4.3.2 of RFC 7231). src/event_loop.cpp:297-302 drops the body only when
  HEAD falls back on a GET route; a HEAD route of its own, the not-found handler and the error handler print theirs, and
  may leave the connection open. A peer then takes the body for the next response (`OutOfStep.HeadOutOfStep`). Prebuilt
  responses and error pages are sent to HEAD in full as well (`Answers.HeadIsGet`, `PeerView.PeerReadsAll`). When a peer
  stays in step is `Answers.KeepsStepExactly` for one answer, and `PeerView.PeerReadsAll` and `PeerView.PeerReadsClosed`
  for a connection.
- A refused registration can change what lookups answer, because it may have torn an edge before it was refused
  (`Surprises.RefusedYetFound`). `Refusals.RefusalExactly` says when.
- src/event_loop.cpp:599 copies 58 bytes of a 59-byte literal, so error pages read `Content-Length:5` without the blank.
  Readers accept that (`Response.ErrorReadBack`), and the size estimate beside it, which is short by a few bytes, still
  covers every page whose code and length together print in 13 bytes (`Response.ErrorFits`).

## Model

| member | source | states |
|---|---|---|
| Text.LowerIs | src/http_parser.cpp:10-18 | Case folding gives each of the 26 upper-case letters its lower-case form and leaves every other byte alone |
| TrieInsert.InsertMeth | src/router.cpp:54-190 | Inserting a pattern gives its handlers to exactly its own token position and method and changes no other position, whatever edges are split and even when the insertion is refused |
| TrieInsert.InsertKeeps | src/router.cpp:111-160 | No insertion removes a node position |
| TrieInsert.InsertHas | src/router.cpp:111-190 | A successful insertion has a node exactly at the old positions, at the stops of the new pattern, and where the pattern parts from an old position |
| TrieInsert.InsertWellFormed | src/router.cpp:54-190 | Every insertion, accepted or refused, keeps the trie invariant: non-empty plain labels, no two siblings competing for a byte, at most one parameter and one catch-all child, catch-alls as leaves |
| TrieInsert.InsertAccepts | src/router.cpp:57-101 | An insertion is accepted exactly when nothing already there blocks it: same position and method, a parameter of another name, or another catch-all at that place |
| TrieSearch.SearchFirst | src/router.cpp:207-279 | The search finds the lexicographically first accepting trace with at most eight parameters and fails only when there is none |
| TrieRoutes.TraceText | src/router.cpp:220-276 | The tokens spelled by an accepting trace, with captures filled in, are the path up to slashes |
| TrieRoutes.TraceOrder | src/router.cpp:235-276 | Captures are non-empty slices of the path, in order and disjoint |
| TrieRoutes.TraceKeys | src/router.cpp:235-276 | The keys of the captures are the names of the parameters and the catch-all of the route, in order |
| TrieRoutes.Completes | src/router.cpp:207-279 | Every filled-in pattern whose stops are nodes has an accepting trace that captures exactly the values filled in |
| TrieRoutes.AlikeSearch | src/router.cpp:207-279 | Two tries with the same positions and handlers answer every search alike, whatever the order of their children |
| Routing.NoRouteLost | src/router.cpp:45-190 | After any history of registrations, refused ones included, every accepted route with at most eight parameters is found under every path that fills its pattern |
| Routing.LookupSound | src/router.cpp:196-279 | Every match is an accepted registration for that method, with at most eight parameters, whose pattern, filled with the captured values, is the path up to slashes; the capture keys are the first eight names of its parameters and catch-all, in order, which is what src/ctx.cpp:67-74 looks up |
| Routing.LookupOrdered | src/router.cpp:196-279 | The captures of every match are disjoint non-empty slices of the path, left to right |
| Routing.MethStep | src/router.cpp:45-190 | One more registration changes handlers at its own position only, and only when accepted |
| Routing.BuildMeth | src/router.cpp:45-190 | Every handler in the trie comes from an accepted registration |
| Routing.TakenStays | src/router.cpp:45-190 | An accepted registration keeps its handlers through everything that follows |
| Routing.BuildSpots | src/router.cpp:111-190 | With nothing refused, the node positions are a function of the set of patterns: their stops and where two of them part |
| Routing.OrderIndependent | src/router.cpp:45-279 | Two orders of the same routes that both succeed agree on every lookup, in chain and captures |
| Lookups.SearchExactly | src/router.cpp:207-279 | The search finds, of the stored routes with at most eight parameters that match the path token by token, the first under literal before parameter before catch-all at the first token where two differ, with what it captures; and nothing only when none matches |
| Lookups.LookupExactly | src/router.cpp:45-279 | After any history, refused registrations included: a lookup finds nothing exactly when no accepted route serves the path; otherwise it finds an accepted route that serves it, with its chain and the first eight of its captures, and every other one that serves it is less preferred. Optional slashes are skipped exactly behind the node positions of the history (`Refusals.HistorySpots`) |
| Lookups.PreferredIsFound | src/router.cpp:45-279 | The other way round: the accepted route that serves a path and is preferred to all others that do is the one found |
| Precedence.StaticRouteWins | src/router.cpp:220-279 | After any history of registrations, looking up an accepted static pattern as a path gives exactly its handlers and no captures, whatever parameter and catch-all routes stand beside it |
| Router.SharedLength | src/router.cpp:37-43 | The loop computes the longest common prefix |
| Router.TrieNode.FindStatic | src/router.cpp:111-119 | The loop over the static children finds the one the value model picks, and the length it shares |
| Router.TrieNode.InsertCatchAll | src/router.cpp:93-109 | A second catch-all below a node is refused, a first one becomes a leaf |
| Router.TrieNode.SplitEdge | src/router.cpp:128-147 | The in-place edge split turns the node into the value model's split and keeps the node sets of subtrees disjoint |
| Router.TrieNode.Insert | src/router.cpp:54-190 | The in-place insertion yields exactly the trie and the outcome of the value model |
| Router.TrieNode.Search | src/router.cpp:207-279 | The search over linked nodes writes exactly the match of the value model; a failed search leaves the captures as it found them |
| Router.TrieNode.SearchWith | src/router.cpp:246-257 | A capture pushed for a branch is taken back when the branch fails, and earlier captures survive |
| Router.Router.AddRoute | src/router.cpp:45-52 | Registration on the object is registration on the value, refusals and freeze included |
| Router.Router.Lookup | src/router.cpp:196-205 | Lookup on the object is lookup on the value |
| Router.Router.MethodsForPath | src/router.cpp:281-292 | The mask has the bit of a method exactly when the path is found for it |
| Router.Router.RegisteredIsFound | src/router.cpp:45-205 | On the object, whatever was registered or refused: every accepted route is found under every path that fills its pattern |
| TrieRefused.RefusedHas | src/router.cpp:111-160 | A refused insertion leaves a node exactly at the old positions and at those stops of its pattern that lie on a branch already there |
| TrieWitness.RefusedHarmless | src/router.cpp:111-279 | When each such stop was a node before, no search changes |
| TrieWitness.RefusedShows | src/router.cpp:111-279 | When one was not, there is a path whose search does change, provided no route captures more than eight values, each parameter has a byte no static sibling starts with, and every branch leads to a handler |
| Refusals.HistorySpots | src/router.cpp:45-190 | After any history, refused registrations included, the node positions are the stops of the accepted patterns, the places where two of them part, and the stops of refused patterns on routes accepted before them |
| Refusals.RefusalHarmless | src/router.cpp:45-279 | A refused registration that tears no edge of the routes before it changes no lookup |
| Refusals.BuiltRoomy | src/router.cpp:111-160 | Fewer than 255 registrations leave, at every position, a byte that no static child starts with |
| Refusals.RefusalShows | src/router.cpp:45-279 | One that tears an edge changes a lookup, where no accepted route captures more than eight values and every position has such a byte |
| Refusals.RefusalExactly | src/router.cpp:45-279 | So for such histories a refused registration leaves every lookup alone exactly when none of its stops lies on an accepted route without being a node |
| Surprises.RefusedYetFound | src/router.cpp:111-160 | An instance: "/a/b" is refused beside "/ab", and from then on finds the handlers of "/ab" |
| Surprises.InsertTwice | src/router.cpp:54-190 | A pattern inserted again for the same method is accepted again exactly when it has an empty segment before any catch-all |
| Surprises.AcceptedTwice | src/router.cpp:45-190 | The same after any history of registrations: why the routing results ask for patterns without such a segment, and for no more than that |
| Surprises.EmptySegmentTwice | src/router.cpp:111-189 | An instance: "/a//b" is accepted twice, and the first of the two is the one found |
| Normalize.NormalizedAccepts | src/http_parser.cpp:142-190 | A path is accepted exactly when it is absolute, holds no NUL, and no prefix of it climbs above the root |
| Normalize.NormalizedCanonical | src/http_parser.cpp:153-189 | An accepted result has no empty, `.` or `..` segment, save one empty last one for a trailing slash |
| Normalize.NormalFormsAreFixedPoints | src/http_parser.cpp:142-190 | The paths normalisation leaves alone are exactly those of that form |
| Normalize.Idempotent | src/http_parser.cpp:142-190 | Normalising an accepted result again returns it unchanged |
| Normalize.TrailingSlash | src/http_parser.cpp:180-187 | The result ends in a slash exactly when the input does, the root apart |
| Normalize.PopSegment | src/http_parser.cpp:169-179 | Backing up over the written text removes exactly the last segment, and fails exactly when there is none |
| Normalize.ApplySegment | src/http_parser.cpp:161-184 | Each segment is skipped, popped or appended as the segment stack says, without touching unread input |
| Normalize.NormalizeInPlace | src/http_parser.cpp:142-190 | The two-index loop over the buffer computes the segment-stack specification and writes nowhere else |
| UrlDecode.NulExactly | src/http_parser.cpp:194-220 | NUL is reported exactly when a decode position holds `%00` |
| UrlDecode.HexDigits | src/http_parser.cpp:19-24 | The hex digits are the sixteen of either case, with their places as values |
| UrlDecode.DecodedExactly | src/http_parser.cpp:194-220 | What any input decodes to: exactly the text that its pieces spell, where a byte other than `%` and `+` stands for itself, `+` for a blank, an escape for the byte it names unless that is NUL, and a `%` that no two hex digits follow for itself |
| UrlDecode.PlainStays | src/http_parser.cpp:212-216 | In particular a text without `+` and without an escape at a decode position is left as it is |
| UrlDecode.DecodeInvertsEncode | src/http_parser.cpp:194-220 | Decoding inverts every byte-wise encoding of NUL-free text that escapes `%` and `+` |
| UrlDecode.RoundTrip | src/http_parser.cpp:194-220 | In particular percent-encoding with any safe set that leaves those two out |
| UrlDecode.DecodedShorter | src/http_parser.cpp:194-220 | Decoding never lengthens |
| UrlDecode.WriteBehindRead | src/http_parser.cpp:197-219 | At every decode position the text decoded so far is no longer than the input read so far, and the rest depends on the unread input alone: the write index never overtakes the read index |
| UrlDecode.DecodeLoop | src/http_parser.cpp:197-219 | The two-index loop writes the decoded text from the front, changes nothing behind what it has written, and stops exactly at a decoded NUL |
| UrlDecode.DecodeInPlace | src/http_parser.cpp:194-220 | The loop that overwrites its own input computes the decoder on the original bytes and leaves the rest of the slice as it was |
| Decimal.ParseLength | src/http_parser.cpp:79-92 | The digit loop with its two overflow checks accepts exactly the all-digit texts with value at most SIZE_MAX, and returns that value |
| Decimal.LengthRoundTrip | src/event_loop.cpp:23-37 | Parsing what was printed for a size gives the size back |
| Decimal.SizeFits20 | src/event_loop.cpp:23-25 | Every size prints in at most twenty bytes |
| Decimal.UintToStr | src/event_loop.cpp:23-37 | The digit buffer and the reversed copy write the decimal digits and nothing else |
| Decimal.IntToStr | src/event_loop.cpp:39-46 | The same with a sign |
| HttpParser.FramingMeaning | src/http_parser.cpp:62-106 | The header scan refuses exactly when a Content-Length is unreadable or two differ; otherwise it reports their common value and whether Transfer-Encoding occurs |
| HttpParser.CiEqual | src/http_parser.cpp:10-18 | The loop decides equality up to upper-case ASCII letters |
| HttpParser.CiEqMeans | src/http_parser.cpp:10-18 | Equal to a lower-case target is: equal byte by byte, or the same letter in upper case |
| HttpParser.ScanHeaders | src/http_parser.cpp:62-101 | The loop over the headers computes that scan |
| HttpParser.TargetSplit | src/http_parser.cpp:52-60 | The path holds no `?`; the target is the path and, behind its first `?`, the query |
| HttpParser.FrameExactly | src/http_parser.cpp:62-123 | A complete head is refused exactly for unreadable or differing lengths or a Transfer-Encoding, too large exactly when it announces more than the limit, incomplete exactly when it announces more than has arrived |
| HttpParser.ParsedInside | src/http_parser.cpp:113-137 | An accepted request consumes its head and a body of exactly the announced length, empty when none is announced, no more than is there, and all its slices lie inside |
| HttpParser.ParseExactly | src/http_parser.cpp:29-115 | Every input: refused exactly for a malformed head or one whose framing cannot be trusted, too large exactly when it announces more than the limit, incomplete exactly when its head or announced body is, accepted otherwise |
| HttpParser.ParsedReads | src/http_parser.cpp:50-138 | An accepted request has the method, version and headers of the head, the target up to its first question mark as path, what is behind that as query, and the announced number of bytes behind the head as body |
| HttpParser.PrefixStable | src/http_parser.cpp:29-138 | Once a prefix yields a request, a refusal or "too large", every extension yields the same |
| Ctx.SetIsUpdate | src/ctx.cpp:141-160 | Setting a header is a map update on case-folded names for valid input, dropped when sixteen other names are there; the table stays free of duplicates |
| Ctx.SetInPlace | src/ctx.cpp:141-160 | Slot by slot: a header of that name keeps its place and spelling and gets the value, a new one goes behind the others as given while there are fewer than sixteen, invalid input changes nothing |
| Ctx.TokenChars | src/ctx.cpp:14-29 | The bytes of a name are the token characters of section 3.2.6 of RFC 7230 |
| Ctx.ExecExtends | src/ctx.cpp:136-220 | Whatever a chain does, the first terminal call fixes body and content type |
| Ctx.RedirectAfterSend | src/ctx.cpp:174-213 | A later terminal call does nothing exactly when it is no redirect, or a redirect to the status and Location already there (or a Location that is invalid or finds the table full); a redirect keeps the body and replaces status and Location |
| Terminal.ExecTrail | src/ctx.cpp:136-220 | What a chain does to the response is what the calls it makes do one after another |
| Chains.ShellsRun | src/ctx.cpp:215-220 | Handlers that make calls before and behind next() run inward in the order of the chain and outward in reverse, around the handler that ends it; one that throws ends everything |
| Chains.SameUpTo | src/ctx.cpp:215-220 | With arbitrary handlers that call next() at most once, nothing behind the first one that never calls it has any effect |
| Terminal.FirstPage | src/ctx.cpp:136-213 | What the first terminal call makes of the calls before it: the status named last (204 for no_content, its own for a redirect), the headers as last set, its own body and type, or the prebuilt bytes |
| Terminal.CharsetAdded | src/ctx.cpp:174-192 | A content type gets a charset exactly when it begins with text/ and does not mention one; a second time changes nothing |
| Terminal.TableBack | src/ctx.cpp:141-160 | A run of calls leaves the header table as it was exactly when every header it names ends with the value it had, or is new and finds the table full |
| Terminal.RestLeavesPage | src/ctx.cpp:136-220 | Whatever a chain still runs after a terminal call, the page stays as it is exactly when it is prebuilt, or the last status named is its own and the headers named are back at their values |
| Terminal.FirstTerminalDecides | src/ctx.cpp:136-220 | So the page of a finished chain is the one of its first terminal call exactly under that condition on the calls behind it |
| Terminal.RedirectOverText | src/ctx.cpp:174-213 | An input that breaks the documented rule: a text followed by a redirect goes out with the text's body, but as a 302 with a Location |
| Ctx.CheckName | src/ctx.cpp:14-29 | A header name is accepted exactly when it is non-empty and made of token characters |
| Ctx.CheckValue | src/ctx.cpp:31-36 | A header value is accepted exactly when it holds no CR, LF or NUL |
| Ctx.SameName | src/ctx.cpp:38-47 | Names are compared up to upper-case ASCII letters |
| Ctx.Context.SendBody | src/ctx.cpp:174-192 | Only the first terminal call has an effect; text types get a charset unless they name one |
| Ctx.Context.SetHeader | src/ctx.cpp:141-160 | The loops over names and table slots compute the header table update |
| Ctx.Context.Perform | src/ctx.cpp:215-220 | Running a handler on the context object, nested next() calls included, is the execution of the value model |
| Query.Query | src/ctx.cpp:76-97 | The loop over the fields returns the decoded value of the first field of that name |
| Query.PartsOf | src/ctx.cpp:76-101 | Every query string is a list of fields, each a key alone or a key, `=` and a raw value, parted by `&` |
| Query.QueryExactly | src/ctx.cpp:76-101 | For any such list: the first field of that key decides; its value is decoded, and empty when there is no `=` or it holds `%00`; without such a field the answer is empty |
| Query.FormReadBack | src/ctx.cpp:76-97 | Every field of an encoded form is read back as the text it was written for |
| Response.SizeIsExact | src/event_loop.cpp:454-491 | The precomputed size is the length of the printed response exactly when the code prints in three bytes |
| Response.ThreeBytesMeans | src/event_loop.cpp:456-457 | That is: codes 100 to 999, and -99 to -10 |
| Response.PrintReply | src/event_loop.cpp:496-563 | The printer writes the response into exactly that many bytes and nowhere else |
| Response.ComputeSize | src/event_loop.cpp:454-491 | The accumulated size is the exact size |
| Response.EmitHeaders | src/event_loop.cpp:539-550 | The loop prints one line for each header in order |
| Response.FieldsFramed | src/event_loop.cpp:517-550 | The printed fields name no coding and one length, that of the body, exactly when no custom header names a coding or another length |
| Response.PrintReadBack | src/event_loop.cpp:424-564 | A printed response, whatever follows it, is read exactly to its end if and only if: nothing was printed as a body and the request was HEAD or the code is 1xx, 204 or 304; or the whole body was printed and no custom header contradicts its length or names a coding. Then code, ordered headers and body come back |
| Response.SaysOfItself | src/event_loop.cpp:504-537 | The first Connection, Date, Content-Type and Content-Length fields of a response are the server's own and say whether it closes, the date, the type and the length of the body, whatever headers the handler set |
| Response.ErrorSaysOfItself | src/event_loop.cpp:595-607 | So do those of an error page, which always closes |
| Response.PhrasesAgree | src/event_loop.cpp:427-447 | The reason phrases are those of section 6.1 of RFC 7231 and section 5 of RFC 6585, and error pages use the same ones |
| Response.HeadIsPrefix | src/event_loop.cpp:488-491 | The HEAD form is the same output without its body |
| Response.ErrorFits | src/event_loop.cpp:583-592 | The estimate for an error page covers the page exactly when code and length print in at most 13 bytes together |
| Response.ErrorReadBack | src/event_loop.cpp:595-607 | An error page, whatever follows it, is read back with its code, headers and body in spite of the lost blank; by a peer that expects no body, exactly to the blank line, so that it is read to its end only when it has none |
| Response.PrintError | src/event_loop.cpp:595-608 | The error printer writes that page and nothing else |
| SizeT.MaskIsRoundUp | src/arena.h:66-67 | For a power-of-two alignment the mask form is arithmetic round-up |
| SizeT.PlaceAgrees | src/arena.h:64-74 | Without wrap-around the 64-bit placement is the arithmetic one |
| SizeT.WrapsExactly | src/arena.h:64-74 | For a block the machine can hold and any size and power-of-two alignment, the 64-bit placement is the arithmetic one exactly when the end of the request does not wrap round into the block, whether or not the aligned address wraps |
| SizeT.WrapIsPossible | src/arena.h:69-69 | An instance of the other case: a size near SIZE_MAX is placed inside the block |
| Arena.Arena.Alloc | src/arena.h:64-74 | An allocation is in bounds, aligned, and apart from everything handed out since the last reset; without wrap-around it lies where the 64-bit code puts it |
| Arena.Arena.AllocOverflow | src/arena.h:110-122 | So is one in a new overflow block; when the block fits in the address space its size did not wrap and the address is the masked one |
| Arena.Arena.Reset | src/arena.h:89-99 | Reset forgets every allocation and frees the overflow blocks |
| Arena.NeverWraps | src/arena.h:64-74 | Over any run of requests that leave room for the block and the alignment, the offset computed modulo 2^64 is the arithmetic one and stays inside the block |
| Arena.AllocateAll | src/arena.h:64-122 | For any sequence of sizes and alignments all regions are in bounds, aligned and pairwise disjoint; for such requests each lies where the code, computing modulo 2^64 throughout, puts it |
| Serve.DecideStable | src/event_loop.cpp:237-266 | A decision taken on the bytes in the buffer does not change when more bytes arrive |
| Serve.DecideConsumes | src/event_loop.cpp:245-269 | Only an accepted request keeps the connection open, and it consumes at least one and at most all of the bytes present |
| Serve.DecidePrintable | src/event_loop.cpp:237-402 | Applications with three-digit codes only cause pages the printers have room for |
| Serve.HeaderFound | src/event_loop.cpp:49-68 | A header value is that of the first header with that name up to case, and missing exactly when no header has it |
| Requests.DecideExactly | src/event_loop.cpp:237-266 | What becomes of any window: 400 exactly for a malformed head or framing, 413 exactly for an announced body over the limit, 431 exactly for an unfinished request in 4096 bytes, more bytes awaited exactly for one in fewer, and bytes consumed exactly for a whole request |
| Requests.DecideReads | src/event_loop.cpp:237-266 | The request answered is made of the bytes of the window that the head names, its target parted at the first question mark, and the announced body behind the head; head and body are consumed |
| Patching.PatchedAll | src/event_loop.cpp:359-370 | After the captures have been decoded in the path, each stands decoded at the front of its own slice, and every other byte is as it was |
| Requests.SeenAt | src/event_loop.cpp:359-372 | What a handler sees: method, version, query, headers and body of the request, each capture's key with its decoded slice, and the normalized path, changed only where a parameter was decoded |
| Requests.ChainRuns | src/event_loop.cpp:372-398 | The page of a routed request is what the calls of its handlers leave on a fresh response, inward and outward in the order of the chain, and no further than the first handler without next(); after a throw it is the error handler's on a view without parameters, or the 500 page |
| Requests.NoFurther | src/event_loop.cpp:372-398 | Two applications that agree on the handlers up to the first that never calls next() give the same page, where those before call it at most once |
| Requests.TestDecides | src/ctx.cpp:215-220 | A handler that inspects the response so far takes the branch its test says |
| Requests.NotFoundRuns | src/event_loop.cpp:342-353 | Without a route, the page is what the not-found handler's calls leave, on a view of the request without parameters |
| Requests.Echo | src/event_loop.cpp:237-402 | From window to page: a route whose handler sends a text it computes from what it can read answers with that text, computed from the request's own bytes, which are then consumed |
| Answers.BadRequestExactly | src/event_loop.cpp:263-292 | The 400 page is sent exactly for a missing Host in HTTP/1.1, a path that is refused, or a captured `%00` |
| Answers.NotServedExactly | src/event_loop.cpp:278-282 | The 501 page is sent exactly for unknown methods, the built-in 404 page exactly when nothing is routed and the application has no handler for that |
| Answers.RoutedError | src/event_loop.cpp:295-402 | Behind routing an error page is sent exactly for a captured `%00` (400), a missing route without a not-found handler (404), or a handler that throws with no error handler (500) |
| Answers.ServerErrorExactly | src/event_loop.cpp:372-398 | The 500 page is sent exactly when the request reaches a route, no capture holds `%00`, and a handler of the chain throws while the application handles no errors |
| Answers.ErrorsClose | src/event_loop.cpp:202-235 | Error pages always close the connection; any other answer closes it exactly when the first Connection header says close, or the version is 1.0 and that header is missing or does not say keep-alive, names and values up to case |
| Answers.AutoOptionsExactly | src/event_loop.cpp:304-343 | The automatic OPTIONS answer is given exactly when the path has routes but none for OPTIONS, and it lists exactly their methods |
| Answers.AllowReadBack | src/event_loop.cpp:307-326 | The Allow list, taken apart at its commas, names exactly those methods, with OPTIONS last |
| Answers.OptionsAnswered | src/event_loop.cpp:304-343 | OPTIONS on a path with routes, none of them for OPTIONS, is answered by 204 without a body and one header, Allow, that reads back as the methods the path is found for, in the order of their enumeration, and OPTIONS |
| Answers.NamesInOrder | include/voie/types.h:10-51 | The method names belong to the enumerators in order |
| Answers.NamesAreDistinct | include/voie/types.h:26-51 | The two method tables are inverse to each other |
| Answers.HeadFallsBack | src/event_loop.cpp:297-302 | A path is matched as HEAD on a GET route exactly when HEAD has no route there and GET has one |
| Answers.HeadFlagExactly | src/event_loop.cpp:297-398 | A response is built without its body exactly when HEAD fell back on a GET route, no capture holds `%00`, and the chain finished |
| Answers.KeepsStepExactly | src/event_loop.cpp:297-398 | A response ends where the peer takes it to end exactly when: for HEAD, it fell back or has no body; for 1xx, 204 and 304, it has no body; otherwise no custom header contradicts the length or names a coding |
| Answers.HeadIsGet | src/event_loop.cpp:297-302 | When the handlers do not look at the method, a HEAD request served by a GET route gets what the GET request gets: a built page without its body, prebuilt bytes in full; and both close alike |
| Protocol.ReceiveKeeps | src/event_loop.cpp:136-148 | Receiving any chunk that fits keeps the connection invariant: one of two modes, answers faithful to the input, output in order |
| Protocol.TransmitKeeps | src/event_loop.cpp:150-183 | So does any partial or complete send, which ends the connection only with every response sent in full |
| Protocol.GreedyAnswer | src/event_loop.cpp:237-266 | The answer to the buffered bytes is the next answer of the greedy parse of the stream, whatever follows |
| Slots.StepKeeps | src/epoll_loop.cpp:84-184 | Every event of the network, the peers and the clock keeps the server invariant |
| Slots.RunKeeps | src/epoll_loop.cpp:84-184 | So does every possible history |
| Slots.AnswersAreGreedy | src/event_loop.cpp:136-183 | In every reachable state the answers given on a connection are the first ones of the greedy 4096-byte-window parse of all bytes received, and all of them once it is reading |
| Slots.ChunkingIndependent | src/event_loop.cpp:136-183 | Two connections in any two histories that received the same bytes, however split, and are reading have given the same answers |
| Slots.ReachableStates | src/epoll_loop.cpp:101-182 | In every reachable state live slots and free ids partition the table, each connection is in its mode, and the bytes sent are the responses in order up to the send offset; closed connections leave such a record too |
| Slots.AcceptSlots | src/event_loop.cpp:122-132 | The id handed out belongs to no live connection |
| Slots.SweepSparesWriters | src/event_loop.cpp:185-198 | The idle sweep leaves every connection that is writing as it is |
| Slots.SweepExactly | src/event_loop.cpp:185-198 | It closes exactly the connections that are reading and have been idle for longer than the limit |
| Slots.StepSpares | src/epoll_loop.cpp:84-184 | An event about one connection leaves every other live connection exactly as it was |
| Slots.AcceptTouches | src/connection.cpp:7-11 | A connection counts as active from its arrival |
| Slots.DataTouches | src/event_loop.cpp:143-144 | Bytes that arrive count as activity |
| Slots.TakenTouches | src/connection.cpp:53-72 | So does a response taken in full, but not one taken in part |
| PeerView.StreamInStep | src/event_loop.cpp:424-614 | A peer that knows which of its requests were HEAD stands at the beginning of each response in turn if and only if every one of them ends where it takes it to end; then each tells its code, custom headers and body |
| PeerView.PeerReadsAll | src/event_loop.cpp:136-183 | In every reachable state of a live connection: the bytes sent are the responses in order, for all answers the greedy parse of the input calls for once the connection is reading; and the peer is in step with them if and only if each answer keeps step, in terms of the request and the application (`Answers.KeepsStep`; an error page when its request was not HEAD). In step, it reads of each response its code, custom headers and body |
| PeerView.PeerReadsClosed | src/event_loop.cpp:150-183 | The same for every connection closed so far, the closing response and the error page included; when a closing answer was sent in full, the peer was sent all the answers its input calls for |
| OutOfStep.HeadOutOfStep | src/event_loop.cpp:342-353 | A possible history for the other case: a peer connects, sends HEAD for an unknown path to a server whose not-found handler sends a body, and takes the response; the connection waits for the next request, and the peer stands in front of that body, which is the beginning of no response |
| Connection.Connection.AdvanceRecv | src/connection.h:41-41 | Received bytes go behind those already there |
| Connection.Connection.AdvanceSend | src/connection.h:48-49 | Sent bytes are the next ones of the response |
| Connection.Connection.Kept | src/arena.h:89-99 | A response that is not prebuilt lies in a region its arena still holds, in the main block or in an overflow block not yet freed |
| Connection.Connection.ResetForNextRequest | src/connection.cpp:53-72 | Called with the response sent in full. What is shifted down is exactly what the peer sent behind the consumed request, in spite of the edits in front of it; the arena is reclaimed only now |
| EventLoop.DecodeCaptures | src/event_loop.cpp:359-370 | Decoding the captures one after another in the buffer gives each the value of decoding its original slice alone, and touches nothing outside the path |
| EventLoop.DecodeCapture | src/event_loop.cpp:359-370 | Decoding one capture in the buffer changes the path there and nothing else, and reports NUL exactly when the decoder does |
| EventLoop.ParseRequest | src/http_parser.cpp:29-138 | Parsing where the bytes lie gives what the specification says of the received prefix |
| EventLoop.FindHeader | src/event_loop.cpp:49-68 | The first header of that name, up to case |
| EventLoop.AllowedMethods | src/event_loop.cpp:304-325 | The methods the path is found for, in enumeration order |
| EventLoop.RunChain | src/event_loop.cpp:372-398 | Running the chain, and the error handler behind it, gives the page of the value model |
| EventLoop.CloseWanted | src/event_loop.cpp:202-235 | The close decision read from the buffer |
| EventLoop.BuildResponse | src/event_loop.cpp:424-564 | The response is the printed page and lies in a region the arena has just handed out, behind all others |
| EventLoop.SendError | src/event_loop.cpp:566-614 | So does an error page, and the connection is marked to close |
| EventLoop.AnswerMatched | src/event_loop.cpp:356-398 | A matched request on the edited buffer gets the answer of the value model, computed from the bytes as received |
| Serve.AllowFits | src/event_loop.cpp:307-326 | The Allow list of any path is at most 44 bytes long, and 64 are reserved for it |
| EventLoop.AnswerOptions | src/event_loop.cpp:304-339 | The automatic OPTIONS answer in arena memory, for a list that fits the reserved bytes |
| EventLoop.AnswerNotFound | src/event_loop.cpp:342-355 | The application's not-found answer, or the built-in one |
| EventLoop.AnswerRequest | src/event_loop.cpp:268-402 | An accepted request gets the answer computed from the bytes as received; bytes behind it stay as they are |
| EventLoop.ProcessRequest | src/event_loop.cpp:237-402 | Parsing, editing in place, running handlers and printing on one connection is exactly one step of the protocol |
| EpollLoop.EpollLoop.StartClose | src/epoll_loop.cpp:39-47 | Closing empties the slot, returns its id and sets both break flags |
| EpollLoop.EpollLoop.AllocConnId | src/event_loop.cpp:122-127 | The id comes off the back of the free list and belongs to no live connection; an empty list says full |
| EpollLoop.EpollLoop.OnHangUp | src/epoll_loop.cpp:136-140 | A hang-up closes the connection of the slot |
| EpollLoop.EpollLoop.OnRecv | src/event_loop.cpp:136-148 | on_recv is one protocol step; the receive loop is told to stop exactly when the connection is no longer reading |
| EpollLoop.EpollLoop.OnSend | src/event_loop.cpp:150-183 | on_send is one protocol step; the send loop is told to stop exactly when the connection is no longer writing |
| EpollLoop.EpollLoop.OnTimeout | src/event_loop.cpp:185-198 | The loop over all slots is the sweep of the model |
| EpollLoop.EpollLoop.OnAccept | src/epoll_loop.cpp:101-124 | An accepted descriptor gets a fresh connection in a slot that was free, or is turned away when the table is full |
| EpollLoop.EpollLoop.DrainRecv | src/epoll_loop.cpp:144-163 | The receive loop asks for at least one byte each time, goes on with exactly the bytes the calls returned, cut to the room there was, and stops only at EAGAIN, at a close, or when a response is under way |
| EpollLoop.EpollLoop.DrainSend | src/epoll_loop.cpp:165-182 | The send loop goes on through pipelined responses with exactly the counts the calls returned, cut to what was offered, offers at least one byte each time, and stops only at EAGAIN, at a close, or when more input is needed |
| EpollLoop.EpollLoop.OnClient | src/epoll_loop.cpp:132-182 | Every client event adds exactly what the kernel calls returned to the history, and leads to the state that history leads to |
| EpollLoop.EpollLoop.Modes | src/epoll_loop.cpp:21-37 | Between events a live connection is reading with room and read interest, or writing with bytes left and write interest. The response it is writing lies in a region the arena has handed out since its last reset and still holds, overflow blocks included, unless its page is prebuilt; unparsed bytes lie in the buffer as the peer sent them |
| EpollLoop.EpollLoop.Partition | src/event_loop.cpp:70-80 | Free ids and occupied slots partition the table, and no id is free twice |

## Left out

- src/io_loop.cpp and src/uring_loop.cpp: the superseded monolith, and a backend whose correctness rests on kernel completions.
- picohttpparser, sockets, epoll, timers, threads, strftime: parameters, assumptions or nothing at all, as described above.
- malloc: any address apart from the blocks in use; running out of memory is not modelled.
- Batched stale events: a hang-up names a live slot, and readability or writability is only reported while it is asked for.
- Descriptor numbers: closing a descriptor is one action with closing its slot.
- Patterns with an empty segment before any catch-all, and empty handler chains: the routing results ask for neither. Surprises.AcceptedTwice shows why for the first; the second is never found by a lookup.
- RefusalExactly: for routes of more than eight captures, and where static siblings start with every byte a parameter could be given, only the harmless half is stated (Refusals.RefusalHarmless): such routes are never found, or not by a value of one byte, so an edge of theirs can be torn without a path that shows it.
- Not-found and error handlers that throw, and status codes outside 100 to 999: the whole-run results ask for applications without them.
- Error pages for bodies of ten digits and more: the code only sends literal texts.
- Prebuilt responses: opaque non-empty bytes; nothing is said about the Connection header in them, nor about how a peer reads them.
- Copies that handlers' strings get in the arena (dup): handler strings are values, so the arena holds responses and query values only.
- store and load, groups, handler type erasure, arena pool, moved-from connections: easy members.
- Router.Router: the running server model uses the table as a value (Serve.Config), not the linked nodes, which are proved equal to it.
- methods_for_path: the result is a set of methods, not a bit mask.
- The number of handlers in a chain is kept in eight bits by the code; the model keeps that, and the results about chains speak of the handlers that are left (Requests.Kept).
