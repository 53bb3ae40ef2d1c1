# Collaborative novel editor — a Dafny model of its core

The system is a novel-writing site. Authors own novels, and novels hold
numbered chapters. Several editors can work on one chapter at the same time
through a socket server. The server keeps an in-memory registry of editing
rooms. It relays each text update to the other editors of the room, and it
autosaves chapters on request. A client-side session wrapper tracks the
connection, the current room and the event subscriptions.

The model describes each part as pure functions over immutable data:

- **Room registry.** `CollabServer` models the server's handlers:
  - connection authentication, with token verification passed in as a function
  - `join-room`, `text-update`, `leave-room` (`handleLeaveRoom`) and `disconnect`, each a transition of the registry
  - `save-chapter`, the autosave

  Every handler returns the new registry and the messages it sends. Each
  message names its recipient symbolically: `ToSender(conn)`, or
  `OthersIn(room, except)` for `socket.to(room)`, which excludes the sender.
  The `Audience` function resolves a recipient to the set of connections it
  reaches.
- **Registry order.** The registry remembers the insertion order of the
  room map, so the disconnect scan visits rooms in exactly the order the
  map's `forEach` does.
- **Client wrapper.** `SocketService` models the client's session wrapper:
  - connect, disconnect, join, leave, send and emit, each returning the outbound events it produces
  - the handler registry and the listeners attached to the live socket
  - the module-level singleton
- **Documents.** `ChapterModel` and `NovelModel` model the two Mongoose
  documents: their required fields, defaults, trim setters, unique indexes
  and pre-save hooks. `NovelModel` also models slug generation and the search
  for a free numeric suffix.
- **Store.** `Store` models the database as two maps. It defines the
  consistency invariant every endpoint preserves: unique
  `(novel, chapterNumber)` pairs, unique slugs, and every document valid.
- **Endpoints.** `ChapterController`, `NovelController` and
  `SearchController` model the decision logic of the HTTP endpoints: the
  order of the 404, 403, 401 and 400 answers, the `x || old` partial updates,
  the pagination arithmetic and the merge-with-dedup of search results.
- **Shared helpers.** `JsText` holds the JavaScript string semantics the
  model needs: ASCII `trim`, truthiness, decimal rendering and `filter` by
  inequality. `Wrappers` provides `Option` and `Result`.

Some behaviour the code has and the model keeps:

- On the server, `join-room` does not leave the rooms a connection is
  already in, so one connection can be in several rooms, and `Disconnect`
  therefore scans every room. Only the client wrapper's `JoinRoom` leaves
  the current room first.
- The socket middleware takes the identity from the token's `id` claim,
  while the `/api/auth` register and login endpoints sign `{ userId }` and
  the `/api/users` ones sign `{ user: { id } }`. A token the site issued by
  either route therefore admits its connection with no identity, and its
  autosaves are refused as not the author's (see "Findings").
- `generateSlug` truncates after stripping hyphens. A slug cut at 100
  characters can therefore end with `-`. A title with no ASCII word character
  (for example, an all-Chinese title) gets the empty slug. A second such
  novel then gets `-1`, then `-2`, and so on. `GenerateSlug` and `SlugEmptyIff`
  state both facts.
- A populated chapter whose novel no longer exists makes the handler throw.
  The HTTP endpoints answer 500, and the autosave answers the generic
  failure.
- A negative `page` or `limit` is kept, because only a zero is replaced by
  the default. The database rejects a negative skip, which becomes a 500.
  It also treats a negative limit as its magnitude.

## Model

| member | source | states |
|---|---|---|
| JsText.Trim | searchController.js:9 | the result is a slice of the input with no leading or trailing whitespace; it is empty exactly when the input is all whitespace |
| JsText.TrimIdempotent | Chapter.js:10-14 | applying the `trim` setter twice gives what applying it once gives |
| JsText.OrElse | chapterController.js:88-89 | `value \|\| old`: a present non-empty string replaces, anything falsy keeps the fallback |
| JsText.Decimal | Novel.js:70 | the template-literal rendering of a count is a non-empty digit string with no leading zero, one digit exactly below ten |
| JsText.DecimalInjective | Novel.js:70 | two counts with the same rendering are equal |
| JsText.DecimalValue | Novel.js:70 | the rendering denotes the count: its digits, read back in base ten, give `n` |
| JsText.Without | chapterController.js:147-149 | `filter(id => id !== x)` keeps every other element, in order and with its multiplicity, and drops every copy of `x` |
| JsText.WithoutAppend | chapterController.js:147-149 | filtering a concatenation filters each part |
| ChapterModel.NewChapter | Chapter.js:4-27 | a new chapter is accepted exactly when novel, trimmed non-empty title, non-empty content and a number are given; its status defaults to draft |
| ChapterModel.Merge | chapterController.js:88-90 | title and content are replaced only by truthy values (title trimmed), the number only by a non-zero one; novel, status and timestamps are kept |
| ChapterModel.Save | Chapter.js:36-45 | a save fails exactly when validation fails or another chapter of the same novel has the number; success stores the chapter with `updatedAt` set to now, changes no other chapter and keeps numbers unique per novel |
| ChapterModel.PreSave | Chapter.js:42-45 | the hook sets `updatedAt` to now and changes nothing else |
| NovelModel.Lower | Novel.js:49 | lowercasing maps each of `A`–`Z` to the letter 32 code points above it (`a`–`z`), keeps every other character and never changes whether a character is a word character |
| NovelModel.CollapseRuns | Novel.js:50 | the result has only slug characters and no `--`, is empty exactly when the input is, and starts with the input's first character, or with `-` when that is not a word character |
| NovelModel.CollapseKeepsWordOrder | Novel.js:50 | the word characters of the result are those of the input, in the same order |
| NovelModel.CollapseIsSqueeze | Novel.js:50 | the replacement equals turning every non-word character into `-` and then squeezing each run of hyphens into one |
| NovelModel.CollapseKeepsWords | Novel.js:50 | the collapsed string has a character other than `-` exactly when the input had a word character |
| NovelModel.CollapseFixesSlug | Novel.js:50 | collapsing a string that is already slug-shaped changes nothing |
| NovelModel.StripHyphens | Novel.js:51 | the result is a slice of the input with only hyphens outside it; neither of its ends is a `-`; it keeps slug shape; it is empty exactly when the input was all hyphens |
| NovelModel.StripKeepsWords | Novel.js:51 | stripping keeps every word character, in order |
| NovelModel.Truncate | Novel.js:52 | `substring(0, 100)` is the prefix of length min(length, 100) |
| NovelModel.Stripped | Novel.js:48-51 | before truncation, the word characters of the slug are the title's word characters, lowercased, in order |
| NovelModel.GenerateSlug | Novel.js:47-53 | the slug is the first min(length, 100) characters of the stripped form; it has only `a`–`z`, `0`–`9`, `_`, `-`, no `--`, does not start with `-`, and does not end with `-` when the stripped form fitted in 100 |
| NovelModel.SlugWords | Novel.js:47-53 | the slug's word characters are a prefix of the title's word characters, lowercased and in order, and all of them when nothing was truncated |
| NovelModel.SlugEmptyIff | Novel.js:47-53 | the slug is empty exactly when the title has no ASCII word character |
| NovelModel.SlugIdempotent | Novel.js:47-53 | a slug that does not end in `-` is its own slug |
| NovelModel.CandidateInjective | Novel.js:70 | distinct counts give distinct suffixed candidates |
| NovelModel.CandidateSetSize | Novel.js:66-72 | the first `k` candidates are `k` distinct strings, which bounds the suffix search |
| NovelModel.FirstFree | Novel.js:66-72 | the suffix search returns a candidate no other novel holds, the one for the least free count at or after the start |
| NovelModel.ChooseSlug | Novel.js:61-74 | the chosen slug is free; it is the base exactly when the base is free, and otherwise the base with the least free suffix `-k`, k ≥ 1 |
| NovelModel.NewNovel | Novel.js:4-31 | a new novel carries the given author, trimmed title and tags, the placeholder cover when none is given, no chapters and no slug yet |
| NovelModel.PreSave | Novel.js:56-78 | the hook sets `updatedAt`; the slug is recomputed (and free) exactly when the title changed or the slug is missing or empty; nothing else changes |
| NovelModel.Save | Novel.js:10-14 | an invalid novel is refused; a successful save stores the hooked novel, changes no other novel and keeps slugs unique; a valid save whose slug is recomputed, or kept as stored, succeeds |
| Store.LookupChapter | chapterController.js:76 | the populated lookup distinguishes a missing chapter, a chapter whose novel is gone, and a chapter found with its novel |
| Store.ChapterSaveKeepsConsistent | Chapter.js:39 | a successful chapter save keeps the store consistent |
| Store.NovelSaveKeepsConsistent | Novel.js:10-14 | a successful novel save keeps the store consistent |
| ChapterController.CreateChapter | chapterController.js:22-68 | 404 for a missing novel, then 403 for a non-author, then 400 for a taken number, all without change; success stores the draft chapter of that novel with the body's trimmed title, content and number, created and saved now, and appends its id to the end of the novel's list, changing no other novel |
| ChapterController.CreateChapterSucceeds | chapterController.js:50-63 | in a consistent store an author's valid chapter with a free number is always created |
| ChapterController.CreateChapterKeepsConsistent | chapterController.js:22-68 | every outcome of chapter creation keeps the store consistent |
| ChapterController.UpdateChapter | chapterController.js:71-99 | 404 for a missing chapter before the 403 for a non-author; refusals change nothing; success stores the merged chapter with status and novel kept; the author's update succeeds exactly when the merged chapter is valid and its number is free in its novel |
| ChapterController.UpdateChapterKeepsConsistent | chapterController.js:71-99 | every outcome of a chapter update keeps the store consistent |
| ChapterController.PublishChapter | chapterController.js:102-129 | the same 404-then-403 order; success changes only the status, to published, and the save time |
| ChapterController.PublishSucceeds | chapterController.js:102-129 | in a consistent store the author can always publish a chapter |
| ChapterController.PublishChapterKeepsConsistent | chapterController.js:102-129 | publishing keeps the store consistent |
| ChapterController.DeleteChapter | chapterController.js:132-160 | a non-author gets 401 with no change; success removes every occurrence of the id from the novel's list, keeping the rest in order, and removes the chapter; the author's delete succeeds whenever the novel is valid and slugs are unique, as in a consistent store |
| ChapterController.DeleteChapterKeepsConsistent | chapterController.js:132-160 | deleting a chapter keeps the store consistent |
| NovelController.ParamOr | novelController.js:9-10 | a missing, unparsable or zero parameter takes the default; any other value is kept |
| NovelController.TotalPages | novelController.js:15 | for a positive limit the page count is 0 for no novels, else the least `p` with `total <= p * limit` |
| NovelController.CeilDiv | novelController.js:15 | integer ceiling division: `(r - 1) * limit < total <= r * limit` |
| NovelController.Window | novelController.js:18-23 | `skip` then `limit` returns the consecutive run of the sorted collection starting at `skip`, of length the limit's magnitude when that many remain and otherwise every document after `skip` |
| NovelController.GetAllNovels | novelController.js:6-38 | the page is refused (500) exactly when the skip `(page - 1) * limit` is negative; otherwise the block echoes total, page count, page and limit, and the novels are the window at that skip |
| NovelController.PagesCoverCollection | novelController.js:11-23 | with a positive limit every novel appears on page `k / limit + 1`, at position `k % limit`, and that page is within the page count |
| NovelController.PagesPastTheEndAreEmpty | novelController.js:11-23 | pages after the page count are empty |
| NovelController.CreateNovel | novelController.js:71-89 | the author is the authenticated user whatever the body says; an invalid novel is refused without change; a valid one is stored with the body's trimmed title, description, cover (or the default) and trimmed tags, no chapters, and the slug chosen from its title among the slugs already held |
| NovelController.CreateNovelKeepsConsistent | novelController.js:71-89 | creating a novel keeps the store consistent |
| NovelController.MergeNovel | novelController.js:109-112 | title, description and cover are replaced only by truthy values; tags are replaced by any given array, even an empty one; nothing else changes |
| NovelController.UpdateNovel | novelController.js:92-121 | 404 before 403, refusals change nothing; success stores the merged novel stamped `now`, keeps a non-empty slug when the title is unchanged, and when the title changed or the slug was missing or empty stores the generated slug made unique among the other novels' slugs; the author's update fails with no change when the merged novel is invalid and succeeds when it is valid and slugs are unique |
| NovelController.UpdateNovelKeepsConsistent | novelController.js:92-121 | updating a novel keeps the store consistent |
| NovelController.DeleteNovel | novelController.js:124-148 | a non-author gets 401, and every refusal changes nothing; the author's delete always succeeds, removing every chapter of the novel, then the novel |
| NovelController.DeleteNovelKeepsConsistent | novelController.js:124-148 | deleting a novel keeps the store consistent |
| SearchController.MergeByAuthor | searchController.js:42-50 | the result starts with the direct matches unchanged, appends only novels whose id is not yet present, holds exactly the ids of both lists, and keeps ids distinct when the direct matches were |
| SearchController.MergeKeepsOrder | searchController.js:44-50 | the appended novels appear in the order of the by-author list |
| SearchController.SearchNovels | searchController.js:9-50 | a missing or blank query gives the empty list; otherwise the merged list |
| CollabServer.Authenticate | index.js:19-35 | a connection is admitted exactly when a non-empty token is given and verifies, with the token's `id` claim as its identity |
| CollabServer.IssuedTokenHasNoIdentity | index.js:28-29 | a token carrying either payload the site signs (`{ userId }` from `/api/auth`, `{ user: { id } }` from `/api/users`) admits its connection with no identity, and every autosave of an existing chapter from it is refused |
| CollabServer.AuthenticateCorrected | index.js:19-35 | admitted exactly when `Authenticate` admits, with the `userId` claim as identity and the nested `user.id` claim when `userId` is absent, so a token either pair of endpoints issued for a user identifies that user |
| CollabServer.Join | index.js:42-68 | the room exists afterwards and holds the joiner; a new room starts with empty content; no other room changes; `init-content` goes to the joiner only when there is content; `user-connected` carries the count after insertion; the registry stays valid |
| CollabServer.JoinNotifies | index.js:58-67 | `user-connected` reaches exactly the members other than the joiner, and its count is theirs plus one; `init-content` reaches only the joiner |
| CollabServer.TextUpdate | index.js:71-87 | an existing room's content becomes the text; an unknown room changes nothing; the text goes to the others in the room and never back to the sender |
| CollabServer.LastWriteWins | index.js:75-77 | two updates in a row leave what the second alone leaves |
| CollabServer.Leave | index.js:157-180 | an unknown room is a no-op; otherwise the connection leaves the room, the others hear the remaining count, the room is deleted exactly when it became empty, and no other room changes |
| CollabServer.LeaveCountIsAudience | index.js:165-168 | the count in `user-disconnected` equals the number of connections it reaches |
| CollabServer.DisconnectScan | index.js:148-152 | the scan sends no more notices than it scans rooms, each a `user-disconnected` for the connection addressed to the others of a scanned room, and creates no room |
| CollabServer.Farewells | index.js:148-152 | each disconnect notice goes to the others of a scanned room that held the connection |
| CollabServer.ScanKeepsValid | index.js:148-152 | the disconnect scan keeps the registry valid |
| CollabServer.ScanSkipsRoom | index.js:148-152 | a room the scan does not visit is unchanged |
| CollabServer.ScanVisitsRoom | index.js:148-152 | a room the scan visits is left exactly when it held the connection |
| CollabServer.ScanSendsFarewells | index.js:148-152 | the scan sends the notices computed from the registry before it, in map order |
| CollabServer.FarewellsIgnoreOtherRooms | index.js:148-152 | the notices depend only on the scanned rooms |
| CollabServer.Disconnect | index.js:144-153 | after a disconnect no room holds the connection, rooms that did not hold it are untouched, each room that did lost only it and is gone when empty, one notice goes per such room, and the registry stays valid |
| CollabServer.TwoEditorsScenario | index.js:42-87 | two editors: each one's text reaches only the other, and the room keeps the later text |
| CollabServer.LateJoinerScenario | index.js:42-153 | a late joiner is sent the stored text alone; when an editor disconnects the others hear the new count and the room stays |
| CollabServer.SaveChapter | index.js:90-136 | exactly one reply, to the requester, naming the chapter; a missing chapter or a non-author gets `save-error` with no change; success stores the merged chapter with the save time and reports that time; the author's autosave succeeds exactly when the merged chapter is valid and its number is free |
| CollabServer.AutosaveSucceeds | index.js:90-126 | with the corrected middleware, a token either pair of endpoints issued to the author yields a connection whose valid autosave is answered `save-success` and stores the merged chapter |
| CollabServer.AutosaveMatchesUpdate | index.js:90-119 | the autosave writes exactly what the HTTP chapter update writes for the same author, and succeeds exactly when it does |
| CollabServer.SaveChapterKeepsConsistent | index.js:114-119 | an autosave keeps the store consistent |
| SocketService.NewService | SocketService.ts:26-34 | a new wrapper has the given server address, an empty token, no socket, no room and no callbacks |
| SocketService.SetAuthToken | SocketService.ts:37-39 | only the token changes; a live socket is untouched |
| SocketService.Connect | SocketService.ts:42-68 | the new socket carries listeners for every registered callback and keeps the registry, the room, the server URL and the token |
| SocketService.ConnectSyncs | SocketService.ts:180-194 | right after connecting, the socket runs exactly the registered callbacks of each event, in order |
| SocketService.Disconnect | SocketService.ts:71-78 | without a socket nothing happens; otherwise it hangs up, clears the socket and the room, and emits no `leave-room`; the registry, the server URL and the token are kept |
| SocketService.JoinRoom | SocketService.ts:81-94 | throws without a socket and changes nothing; otherwise emits `leave-room` for the current room first (when in one), then `join-room`, and records the new room |
| SocketService.LeaveRoom | SocketService.ts:97-105 | a no-op without a socket or a room; otherwise emits `leave-room` for the current room and forgets it |
| SocketService.JoinThenLeave | SocketService.ts:81-105 | joining then leaving a named room returns the wrapper to no room, and the server hears the join and the leave of that room |
| SocketService.SendTextUpdate | SocketService.ts:108-118 | throws unless connected and in a room; otherwise emits one `text-update` addressed to the current room |
| SocketService.Emit | SocketService.ts:121-127 | throws without a socket; otherwise emits the event as given |
| SocketService.On | SocketService.ts:130-141 | the callback is appended to its event's list, other events are untouched, and it is attached to the socket only when one exists; the room, the server URL and the token are kept |
| SocketService.OnKeepsSync | SocketService.ts:130-141 | registering keeps the socket running exactly the registered callbacks |
| SocketService.OnBeforeConnect | SocketService.ts:180-188 | a callback registered before connecting runs once connected, after those registered before it |
| SocketService.IndexOf | SocketService.ts:155 | `indexOf` gives the first position of the callback, or -1 exactly when it is absent |
| SocketService.RemoveFirst | SocketService.ts:155-158 | an absent callback leaves the list alone; a present one shortens it by one |
| SocketService.RemoveFirstCounts | SocketService.ts:155-158 | removing a present callback drops exactly one copy of it and nothing else |
| SocketService.Splice | SocketService.ts:155-158 | the guarded `splice(indexOf(cb), 1)` leaves a list without the callback alone and otherwise shortens it by one |
| SocketService.SpliceRemovesFirst | SocketService.ts:155-158 | `splice(indexOf(cb), 1)`, guarded by `index !== -1`, removes exactly the first occurrence of the callback |
| SocketService.Off | SocketService.ts:144-167 | `off(e)` deletes the entry and the socket's listeners; `off(e, cb)` removes the first occurrence and deletes the entry once it is empty; no event keeps an empty list; the registry and socket listeners of other events, the room, the address and the token are untouched |
| SocketService.OffAllKeepsSync | SocketService.ts:145-150 | `off(e)` keeps the socket in step with the registry |
| SocketService.OffLeavesCallbackAttached | SocketService.ts:151-164 | after `on(e, 1)`, `on(e, 2)`, `off(e, 1)` the registry lists only 2 while the socket still runs 1 and 2 |
| SocketService.RemoveFirstListener | SocketService.ts:151-158 | removing the first listener of a callback from the socket removes it from the callbacks the socket runs |
| SocketService.Detach | SocketService.ts:151-158 | taking the callback's first listener off the socket removes its first occurrence from what the socket runs for that event, and leaves other events alone |
| SocketService.DetachKeepsSync | SocketService.ts:151-158 | detaching the callback the registry dropped keeps the socket in step with the registry |
| SocketService.OffCorrected | SocketService.ts:144-167 | the corrected `off` changes the registry as `off` does, keeps the room, address, token and other events' listeners, and keeps the socket in step with the registry |
| SocketService.CreateSocketService | SocketService.ts:198-205 | the first call builds the instance from its options; later calls return that instance and ignore theirs |
| SocketService.GetSocketService | SocketService.ts:207-212 | fails exactly before the first creation, and otherwise returns the instance |
| SocketService.SingletonStable | SocketService.ts:198-212 | every later creation and every lookup yields the instance of the first creation |

## Findings

| source | as written | input that shows it | evidently intended | confidence | as-written member | corrected member |
|---|---|---|---|---|---|---|
| SocketService.ts:151-164 | `off(event, callback)` removes the callback from the registry only. `on` attached an arrow wrapper to the socket, so the socket still runs the callback while other callbacks of the event remain. | connect; `on('text-updated', 1)`; `on('text-updated', 2)`; `off('text-updated', 1)`: the registry lists `[2]`, the socket runs `[1, 2]` | the callback's listener also leaves the live socket, so the socket runs exactly the registered callbacks | high, not executed | SocketService.OffLeavesCallbackAttached | SocketService.OffCorrected |
| index.js:28-29 | the middleware takes the identity from `decoded.id`, but the `/api/auth` endpoints (authController.js:26-30, 66-70) sign `{ userId: user._id }` and the `/api/users` endpoints (userController.js:26-32, 65-71) sign `{ user: { id: user.id } }`, so none of the site's own tokens carries a top-level `id` claim | a token issued at either login for user `u`, then `save-chapter` for a chapter of `u`'s novel: the connection has no identity and the reply is `save-error` | the identity is the `userId` claim, or the nested `user.id` claim when there is no `userId`, so the author's autosave goes through (`CollabServer.AutosaveSucceeds`) | medium, not executed | CollabServer.IssuedTokenHasNoIdentity | CollabServer.AuthenticateCorrected |

## Left out

- The socket transport (`io(...)`, `socket.join` and `socket.leave`, CORS) is abstracted. Messages carry symbolic recipients, and the transport's rooms are taken to hold exactly the registry's members.
- Each connection's private room (its own id) is not modelled. A `socket.to(r)` whose `r` happens to be another connection's id would reach that connection; the model takes room ids to be distinct from connection ids.
- `jwt.verify` and the server secret become the `verify` parameter of `Authenticate`. Token signing and bcrypt are not part of this model.
- The client's `connect` is taken to succeed. The `connect_error` rejection, the promise, `getSocketId` and `isConnected` are not modelled. The handshake token (`setAuthToken`) is carried but not interpreted on the client side.
- ChapterModel: chapter numbers are integers. Mongoose stores `chapterNumber` as a double, so fractional numbers such as 1.5 are accepted by the source; they are not modelled.
- Mongoose is modelled only where it decides an outcome: required fields, trim setters, defaults, unique indexes and pre-save hooks. Queries, `populate` projections, cast errors on malformed ids and connection failures are not modelled. Malformed ids are treated as ids that are absent.
- `findOne({ novel, chapterNumber })` with no `chapterNumber` in the body is taken to match no chapter. Creation then fails validation and answers 500, as the code does.
- Lowercasing covers `A`–`Z` only, and `trim` and the `\s`/`\W` classes cover ASCII only. Unicode letters with special lowercase forms are not modelled.
- `parseInt` is not modelled: the parsed page and limit are inputs. Floating-point `Math.ceil` becomes integer ceiling division. A negative limit is modelled by its formula, not by IEEE rounding.
- The search's regular-expression matching, including a query that is not a valid pattern (a 500), is not modelled. The two matched lists are inputs, in database order.
- The sort by creation time is not modelled. `GetAllNovels` receives the collection already sorted.
- `Date.now` is the `now` parameter. Console output is not modelled.
- `getChapterById` and `getNovelById` are plain lookups and are not modelled. Neither are the route files, the user and auth controllers, and the Vue front end.
- Socket payloads are taken to be well-formed objects. A `save-chapter` payload that is not an object throws again inside the handler's `catch` and gets no reply; that case is not modelled.
- Event handlers run to completion one at a time. The interleaving of concurrent autosaves around `await` is not modelled.
- SocketService.CreateSocketService: the module-level `instance` is one shared mutable object, so in the source `getSocketService()` after `connect`, `joinRoom`, `on` or `off` returns the updated instance. The model's slot is a value: it holds the instance as created, and a caller must store each updated service back into the slot itself. The singleton's promise is modelled only for creation and lookup.
- Request bodies: an explicit JSON `null` field is treated like an absent one. Mongoose applies a schema default only to `undefined`, so `coverImage: null` at creation stores `null` in the source, while `NovelModel.NewNovel` stores the default cover.
- SocketService.Connect: a repeated `connect` leaves the earlier socket open and still running the callbacks attached to it; the model keeps only the newest socket.
- SocketService.Connect: states the listeners of every event other than `connect`, `connect_error` and `disconnect`; the wrapper's own listeners on those three are stated through `ConnectSyncs` only.
