# Game-server listing site: the rules of its handlers

This project models the rules of a small game-server listing site. The
server is an Express application over a hosted Postgres store; the client is
a React front end. The site lists game versions, carousel slides, action
cards and navigation links. Visitors can make one appointment per game per
day, and can file a complaint. Admins manage the tables, read the dashboard
counters, and work through the complaints.

The store is an in-memory value: a sequence of rows per table, and a map for
the settings. Every handler is a pure function from the store and the
request to the new store and the reply. The reply is `Reply<T>`:

- `Ok(status, value)`, a success;
- `Fail(status, message)`, which becomes `{ error: message }` on the wire;
- `Denied`, the authentication middleware turning the caller away.

Client components are pure transitions on their React state. The browser's
`request` helper maps a response to `Outcome<T>`: a value, `null`, or a
thrown `Error`.

The modules follow the program's files:

| module | what it holds |
|---|---|
| `Common` | `Option`, `Reply`, trimming and the `x || 0` / absent-field defaults |
| `Query` | exact-match filters, exact counts and `.single()` (a row only when exactly one matches) |
| `Sorting` | `order(column)`: the contracts say only "sorted by the key" and "same rows" |
| `OrderedTable` | what the games, carousel, cards and nav-links routers share: listing, insert, update by id, delete by id |
| `ClientIp` | `getClientIp` |
| `Games` | the game CRUD, the appointment guard, and the store invariant it keeps |
| `Complaints` | complaint intake, the admin list, the status change and the delete |
| `Carousel`, `Cards`, `NavLinks` | the three other ordered tables, each with its own defaults and column set |
| `Settings` | the key/value settings |
| `Auth` | the login decision and the `init` route |
| `Dashboard` | the dashboard counters |
| `Base64` | `btoa` and a decoder for it (RFC 4648 section 4) |
| `ApiClient` | `request`, the complaint list query string, `checkAuth`, `handleAction` |
| `GameList` | the public game table and its appointment button |
| `FeatureSection` | the rotating feature panel |
| `ComplaintPage` | the public complaint form |
| `ComplaintAdmin` | the admin complaint table |

Execution is sequential. One request is handled completely before the next
one starts.

The central property is `Games.Invariant`, which has three parts:

- every game has its own id;
- there is at most one appointment row per (game, origin, day);
- every game's `appointment_count` equals the number of its appointment rows.

Every handler that touches games or appointments keeps the invariant.

## Model

| member | source | states |
|---|---|---|
| ClientIp.GetClientIp | backend/src/routes/games.ts:10-16 | A string `x-forwarded-for` gives a trimmed identifier with no comma. Without one, a non-empty peer address is used as it is. Otherwise the result is "unknown". |
| ClientIp.ForwardedChainYieldsFirstHop | backend/src/routes/games.ts:11-13 | For a header "first,rest" the identifier is `first` trimmed, whatever follows and whatever the peer address. |
| ClientIp.SingleEntryHeader | backend/src/routes/complaints.ts:10-16 | A header without commas is used whole, trimmed. |
| ClientIp.EmptyHeaderIsEmptyIp | backend/src/routes/games.ts:11-13 | An empty string header wins over the peer address and gives the empty identifier, not "unknown". |
| Query.Single | backend/src/routes/games.ts:190-194 | `.single()` yields a row exactly when one row matches. That row passes the filter, and every matching row is that row. |
| OrderedTable.ListActive | backend/src/routes/games.ts:22-37 | The public list is sorted ascending by `sort_order`. It holds each active row as often as the table does and no inactive row. |
| OrderedTable.ListAll | backend/src/routes/games.ts:43-57 | `/all` is sorted ascending by `sort_order` and is a permutation of the table. |
| OrderedTable.ActiveListIsAllListFiltered | backend/src/routes/games.ts:24-28 | A row is in the public list exactly when it is in `/all` and active. |
| OrderedTable.CreatedRowIsListed | backend/src/routes/games.ts:69-89 | A row appended under a fresh id keeps ids unique. It is found by its id and shows in `/all`, and it shows in the public list exactly when active. |
| OrderedTable.Insert | backend/src/routes/carousel.ts:58-70 | The new row has an id no row has, `sort_order` is the given value or 0, and it is appended to the table. |
| OrderedTable.InsertListed | backend/src/routes/carousel.ts:58-74 | An inserted row keeps ids unique. It is found under its id and is in `/all`, and it is in the public list exactly when active. |
| OrderedTable.UpdateRows | backend/src/routes/games.ts:105-120 | Same length and same ids. Rows of other ids are unchanged; rows of the id get the given `sort_order`/`is_active` and the table's patch. |
| OrderedTable.Update | backend/src/routes/games.ts:100-131 | The table is the patched table. The reply is 200 with a row of that id that is in the new table, or 500 with the failure message. |
| OrderedTable.UpdateExisting | backend/src/routes/games.ts:105-126 | Under unique ids, updating an existing id answers exactly the patched row, and a lookup then finds it. |
| OrderedTable.UpdateKeepsOtherRows | backend/src/routes/games.ts:105-120 | An update leaves what every other id finds as it was. |
| OrderedTable.UpdateMissing | backend/src/routes/games.ts:120-129 | Updating an id no row has answers 500 and leaves the table as it was. |
| OrderedTable.UpdateKeepsUniqueIds | backend/src/routes/games.ts:105-120 | An update keeps ids unique. |
| OrderedTable.Delete | backend/src/routes/games.ts:141-144 | The rows of the id go and every other row stays with its multiplicity. |
| OrderedTable.DeleteThenLookup | backend/src/routes/games.ts:137-153 | After a delete the id finds nothing, ids stay unique, and every other id finds what it did before. |
| OrderedTable.DeleteAppendedRow | backend/src/routes/navLinks.ts:110-121 | Deleting a row just appended under its own id gives back the table as it was. |
| OrderedTable.LookupFinds | backend/src/routes/games.ts:190-194 | Under unique ids, a lookup finds a row exactly when one has the id, and then finds that row. |
| Games.CreateGame | backend/src/routes/games.ts:65-94 | Without a token the store is unchanged and the reply is Denied. Otherwise the reply is 201 with a new game under a fresh id, appended to the table. Every text column is the body's field, the counter is 0, `score` and `sort_order` are the given values or 0, and `is_active` is the column default. |
| Games.MergeGame | backend/src/routes/games.ts:103-119 | An update never writes the counter. Each of the nine body columns takes the body's value when given and keeps its value when absent. |
| Games.UpdateGame | backend/src/routes/games.ts:100-131 | Without a token nothing changes. Otherwise the appointment rows are untouched, the game table keeps its length, games of other ids are unchanged, and every game of the id takes the given columns and keeps its counter. The reply is 200 with a game of the id exactly when one game had the id, and 500 with "更新游戏失败" otherwise. |
| Games.DeleteGame | backend/src/routes/games.ts:137-153 | Without a token nothing changes. Otherwise the reply is 204 whether or not a row matched, a game remains exactly when it was there and has another id, and the appointment rows stay. |
| Games.UpdateGameWritesGivenColumns | backend/src/routes/games.ts:100-125 | Updating an existing game answers it with exactly the given columns replaced and its counter kept. The lookup then finds that game, other ids find what they found before, and the appointment rows stay. |
| Games.Appoint | backend/src/routes/games.ts:159-208 | 400 "already appointed" exactly when one row has the (game, origin, day). Any failure (that 400, or 500 when the insert fails) leaves the store unchanged. Success appends exactly that row and answers 200 with the old counter (0 if no game) plus one. The game rows of that id take the new counter; every other row is unchanged. |
| Games.SlotCount | backend/src/routes/games.ts:166-172 | With at most one row per slot, the existence query counts 1 exactly when the slot is taken and 0 otherwise. |
| Games.RejectedIffTaken | backend/src/routes/games.ts:166-176 | Under the invariant, an appointment is rejected as a repeat exactly when the same (game, origin, day) row exists. |
| Games.AppendKeepsOnePerSlot | backend/src/routes/games.ts:179-185 | Appending an untaken slot keeps at most one row per slot. |
| Games.BumpKeepsCounts | backend/src/routes/games.ts:190-201 | Writing the re-read counter plus one to the appointed game makes every game's counter match its rows once the new row is appended. |
| Games.AppointKeepsInvariant | backend/src/routes/games.ts:159-208 | Every appointment call, successful or not, keeps the store invariant. |
| Games.CreateKeepsInvariant | backend/src/routes/games.ts:77-82 | Creating a game keeps the invariant: the counter starts at 0, and no appointment row names the fresh id. |
| Games.UpdateKeepsInvariant | backend/src/routes/games.ts:107-119 | An admin update keeps the invariant, since it writes neither ids nor the counter. |
| Games.DeleteKeepsInvariant | backend/src/routes/games.ts:141-144 | Deleting a game keeps the invariant. |
| Games.SecondAppointRejected | backend/src/routes/games.ts:166-176 | After a successful appointment, the same (game, origin, day) gets 400 and nothing changes. |
| Games.SlotsIndependent | backend/src/routes/games.ts:166-172 | Taking one slot does not change whether a slot differing in game, origin or day is rejected. |
| Games.AppointFresh | backend/src/routes/games.ts:179-203 | A first appointment for an existing game answers its counter plus one and keeps the invariant. The game then shows that number, and exactly one row was appended. |
| Games.TwoDaysCountTwice | backend/src/routes/games.ts:159-208 | Appointing on day d, again on d, then on another day d' answers counter+1, then 400, then counter+2, and the game shows counter+2. |
| Complaints.StoredContact | backend/src/routes/complaints.ts:35 | A contact is stored exactly when it is given and non-empty; otherwise null is stored. |
| Complaints.Submit | backend/src/routes/complaints.ts:22-49 | The reply is 400 exactly when the content is absent or only white space. Any failure (that 400, or 500 when the insert fails) leaves the table unchanged. Success is 201 with a fresh id and appends one row: the trimmed, non-empty content, the stored contact, `pending`, the sender's `getClientIp`, and the time. |
| Complaints.List | backend/src/routes/complaints.ts:57-79 | The reply is Denied exactly without a token. The list is ordered newest first. With a non-empty status it holds exactly the rows of that status; otherwise it is a permutation of the table. |
| Complaints.Listed | backend/src/routes/complaints.ts:61-68 | Every row the status filter admits is in the list. |
| Complaints.EmptyFilterListsAll | backend/src/routes/complaints.ts:66-68 | An empty status in the query filters nothing. |
| Complaints.SubmittedIsListedPending | backend/src/routes/complaints.ts:22-79 | An accepted complaint keeps ids distinct and shows in the admin list, both unfiltered and under `pending`. |
| Complaints.SetStatus | backend/src/routes/complaints.ts:85-104 | Without a token nothing changes. Otherwise only the `status` of the rows with the id changes, and the reply is 200 with such a row, or 500. |
| Complaints.SetStatusChangesOnlyStatus | backend/src/routes/complaints.ts:90-98 | For an existing id, the reply is the row with only its status changed, every other row is unchanged, and ids stay distinct. |
| Complaints.SetStatusMissing | backend/src/routes/complaints.ts:90-102 | A status change for an id no row has answers 500 and changes nothing. |
| Complaints.Remove | backend/src/routes/complaints.ts:110-126 | Without a token nothing changes. Otherwise the reply is 204, the rows of the id go, and every other row stays. |
| Complaints.RemoveLeavesOthers | backend/src/routes/complaints.ts:114-121 | After a delete no row has the id, every other row is still there, and ids stay distinct. |
| Carousel.CreateSlide | backend/src/routes/carousel.ts:54-79 | Without a token nothing changes. Otherwise the new slide is appended under a fresh id. `sort_order` is the given value or 0, and `is_active` is false only when the body says false. |
| Carousel.MergeSlide | backend/src/routes/carousel.ts:92-101 | Title, badge, description, refund policy and image each take the body's value when given and keep their value when absent, whatever else the body gives. |
| Carousel.UpdateSlide | backend/src/routes/carousel.ts:85-112 | Without a token nothing changes. Otherwise the table keeps its length, rows of other ids are unchanged, and every row of the id takes the given slide columns, `sort_order` and `is_active` and keeps the rest. The reply is 200 with a row of the id exactly when one row had the id, and 500 with "更新轮播图失败" otherwise. |
| Carousel.DeleteSlide | backend/src/routes/carousel.ts:118-134 | Without a token nothing changes. Otherwise the reply is 204 whether or not a row matched, and a slide remains exactly when it was there and has another id, as many times as before. |
| Carousel.NewSlideShownUnlessSwitchedOff | backend/src/routes/carousel.ts:11-79 | A new slide keeps ids unique and is in `/all`. It is in the public list exactly when the body did not set `is_active` to false. |
| Carousel.UpdateSlideWritesGivenColumns | backend/src/routes/carousel.ts:89-106 | Updating an existing slide answers it with exactly the given columns replaced, and other ids are untouched. |
| Cards.CreateCard | backend/src/routes/cards.ts:54-77 | Without a token nothing changes. Otherwise the new card is appended under a fresh id, with `sort_order` the given value or 0 and `is_active` the column default. |
| Cards.MergeCard | backend/src/routes/cards.ts:90-98 | Title, image, action type and action value each take the body's value when given and keep their value when absent, whatever else the body gives. |
| Cards.UpdateCard | backend/src/routes/cards.ts:83-109 | Without a token nothing changes. Otherwise the table keeps its length, rows of other ids are unchanged, and every row of the id takes the given card columns, `sort_order` and `is_active` and keeps the rest. The reply is 200 with a row of the id exactly when one row had the id, and 500 with "更新卡片失败" otherwise. |
| Cards.DeleteCard | backend/src/routes/cards.ts:115-131 | Without a token nothing changes. Otherwise the reply is 204 whether or not a row matched, and a card remains exactly when it was there and has another id, as many times as before. |
| Cards.NewCardVisibilityIgnoresBody | backend/src/routes/cards.ts:56-72 | Whether a new card is public depends on the column default alone. An `is_active` in the body makes no difference to the table or the reply. |
| Cards.UpdateCardWritesGivenColumns | backend/src/routes/cards.ts:86-104 | Updating an existing card answers it with exactly the given columns replaced, and other ids are untouched. |
| NavLinks.CreateLink | backend/src/routes/navLinks.ts:51-73 | Any caller gets 201. The new link is appended under a fresh id, with `sort_order` the given value or 0 and `is_active` the column default. |
| NavLinks.MergeLink | backend/src/routes/navLinks.ts:86-97 | Label, action type and action value each take the body's value when given and keep their value when absent, whatever else the body gives. |
| NavLinks.UpdateLink | backend/src/routes/navLinks.ts:79-104 | Any caller, token or not: the table keeps its length, rows of other ids are unchanged, and every row of the id takes the given link columns, `sort_order` and `is_active` and keeps the rest. The reply is 200 with a row of the id exactly when one row had the id, and 500 with "更新导航链接失败" otherwise. |
| NavLinks.DeleteLink | backend/src/routes/navLinks.ts:110-126 | Any caller gets 204. A link remains exactly when it was there and has another id, as many times as before. |
| NavLinks.AnyCallerUpdatesLink | backend/src/routes/navLinks.ts:79-104 | With no token at all, updating an existing link answers it with exactly the given columns replaced, and other ids are untouched. |
| NavLinks.AnyCallerCreatesAndDeletes | backend/src/routes/navLinks.ts:51-126 | With no token, a link can be created, found under its id, and deleted again, leaving the links as they were. |
| Settings.GetSetting | backend/src/routes/settings.ts:11-32 | 200 with the row exactly when the key exists, otherwise 404 "setting does not exist". |
| Settings.PutSetting | backend/src/routes/settings.ts:40-58 | Without a token nothing changes. Otherwise the key's row is replaced or inserted, stamped with the time. It takes the given value, or keeps the old one when none is given. |
| Settings.PutThenGet | backend/src/routes/settings.ts:11-58 | After writing v, reading the key gives v with the write time, and every other key reads as before. |
| Settings.MissingUntilWritten | backend/src/routes/settings.ts:20-23 | A key is 404 until it is written, and found afterwards. |
| Settings.PutTwice | backend/src/routes/settings.ts:45-48 | Writing the same value twice changes only the stamp. |
| Auth.Login | backend/src/routes/auth.ts:13-52 | Success comes exactly when the name finds one admin whose hash accepts the password. Every failure is the same 401 and changes nothing. Success signs {id, username, 24h}, answers only token, id and name, and sets `last_login` on that admin alone. |
| Auth.ResetRows | backend/src/routes/auth.ts:72-76 | Every admin of the name gets the new hash, and every other row is unchanged. |
| Auth.Init | backend/src/routes/auth.ts:58-99 | Always 200. With admins present, it only resets the hashes of that name, inserts nothing, and answers the reset message with exactly the rows of that name. With none, it stores one admin with the name and the hashed password. |
| Auth.FailuresIndistinguishable | backend/src/routes/auth.ts:24-32 | An unknown name and a wrong password for a known name get identical answers. |
| Auth.LoginSucceedsIff | backend/src/routes/auth.ts:18-32 | Under unique names, a login succeeds exactly when an admin of that name has a hash that accepts the password. |
| Auth.InitThenLogin | backend/src/routes/auth.ts:83-94 | The first admin created by `init` logs in with its password and gets a token for its id and name. |
| Auth.ResetThenLogin | backend/src/routes/auth.ts:67-80 | After a reset the new password logs in, and a password the new hash rejects does not. |
| Auth.ResetKeepsNames | backend/src/routes/auth.ts:72-76 | A reset keeps names unique. |
| Auth.ResetOfUnknownNameSucceeds | backend/src/routes/auth.ts:67-80 | `init` for a name no admin has answers the reset message with no rows and changes nothing. |
| Dashboard.DashboardStats | backend/src/routes/admin.ts:11-44 | Denied exactly without a token. Visits are 1234. The appointment total is the number of appointment rows, and a failed count reads 0. The active and pending figures are bounded by their tables; the two lemmas below pin them exactly. |
| Dashboard.ActiveGamesIsPublicListLength | backend/src/routes/admin.ts:23-26 | The active-games figure is the length of the public game list. |
| Dashboard.PendingIsPendingListLength | backend/src/routes/admin.ts:29-39 | The pending figure is the number of complaints the admin list shows under the `pending` filter. |
| Dashboard.NoPendingIffZero | backend/src/routes/admin.ts:29-32 | The pending figure is 0 exactly when no complaint is pending. |
| Dashboard.AppointRaisesTotal | backend/src/routes/admin.ts:18-20 | A successful appointment raises the total by one; a failed one leaves every figure unchanged. |
| Dashboard.SubmitRaisesPending | backend/src/routes/admin.ts:29-32 | An accepted complaint raises the pending figure by one; a refused one leaves every figure unchanged. |
| ApiClient.Request | services/api.ts:10-30 | A status outside 200-299 throws the body's non-empty `error`, else "request failed". 204 gives null. Any other success gives the parsed body, or throws the parse error. |
| ApiClient.ServerRepliesSurface | services/api.ts:19-29 | A handler's failure message reaches the caller as the thrown message, and its value as the settled value (null for 204). |
| ApiClient.Wire | backend/src/routes/games.ts:89-151 | The sent response carries the handler's status. A 204 has no body; any other value is sent as JSON with no `error` field; a failure is sent as JSON whose `error` is the handler's message. |
| ApiClient.ComplaintsQuery | services/api.ts:299 | The query is empty exactly when the status is missing or empty; otherwise it is `?status=` followed by the status. |
| ApiClient.ParseStatus | backend/src/routes/complaints.ts:59 | A status is read exactly when the query starts with `?status=`. It is a prefix of the text after `?status=`, contains no `&` or `#`, and ends at the end of the query or at an `&` or `#`. |
| ApiClient.QueryRoundTrip | services/api.ts:297-303 | For a status without `&`, `#`, `+`, `%`, tab, line feed or carriage return, and not ending in a space or control character, the status the server reads back from the query is the status asked for, and no status when none was asked. |
| ApiClient.AskedListIsServedList | services/api.ts:297-303 | For a status without `&`, `#`, `+`, `%`, tab, line feed or carriage return, and not ending in a space or control character, the complaint list the server builds from the page's query is the list for the status the page asked for. |
| ApiClient.CheckAuth | services/api.ts:347-350 | True exactly when a stored token is present and non-empty. |
| ApiClient.HandleAction | services/api.ts:357-378 | `qq_friend` opens the friend URL and `qq_group` opens the group URL with the base 64 key, or throws when `btoa` refuses. `link` opens the value and `page` navigates to it. Exactly the other types only warn. |
| ApiClient.ActionsDistinct | services/api.ts:357-378 | The four action types give four different effects for the same value. |
| ApiClient.FriendLinkEndsWithValue | services/api.ts:361 | The friend URL ends in `uin=` followed by the value. |
| ApiClient.GroupLinkDecodes | services/api.ts:365 | For a value of characters up to U+00FF, the group URL opens with its prefix, and the rest decodes to `{"groupkey":"<value>"}`. |
| Base64.Btoa | services/api.ts:365 | Defined exactly when every character is at most U+00FF; the output is 4 characters per started 3-byte block. |
| Base64.DecodeEncode | services/api.ts:365 | Decoding the encoding of any byte sequence gives it back (RFC 4648 section 4, with padding). |
| Base64.BtoaDecodes | services/api.ts:365 | What `btoa` produces decodes to the character codes of its input. |
| GameList.Initial | components/GameList.tsx:55-56 | The first render shows the built-in rows, with nothing in flight, no alert, and the table not broken. |
| GameList.LoadGames | components/GameList.tsx:62-71 | A non-empty list replaces the rows. An empty list, null or an error leaves the view unchanged. |
| GameList.ClickAppoint | components/GameList.tsx:73-76 | A request goes out exactly when nothing is in flight; it marks the clicked game. A click while one is in flight changes nothing. |
| GameList.SetCount | components/GameList.tsx:80-84 | Rows of the game take the count, and every other row is unchanged. |
| GameList.SettleAppoint | components/GameList.tsx:77-91 | Nothing is in flight afterwards. On success the game's rows take the server's count and "预约成功！" is shown. A throw shows its message. A null also shows "预约成功！", since the count is read later by the state updater outside the `try`; the rows stay, and the table breaks exactly when a row has the game's id. |
| GameList.NullAnswerBreaksTable | components/GameList.tsx:78-85 | A null answer to a click on a shown game is announced as a success, leaves the counters, and breaks the table. |
| GameList.LinkClick | components/GameList.tsx:94-98 | A link opens exactly when the address is present, non-empty and not `#`, and then it opens that address. |
| GameList.InFlightBlocksClicks | components/GameList.tsx:73-91 | A second click on any game while one is in flight sends nothing and changes nothing; after settling, clicks send again. |
| GameList.SuccessTouchesOneCounter | components/GameList.tsx:80-84 | On success other games are unchanged, and the clicked game changes only its counter. |
| GameList.AppointReplySurfaces | components/GameList.tsx:78-88 | The appoint handler's count arrives as the settled value, and its repeat message as the thrown message. |
| GameList.SettledRowsShow | components/GameList.tsx:80-84 | After a successful settle, every row of the clicked game shows the server's count. |
| GameList.ClickShowsStoredCounter | components/GameList.tsx:73-91 | End to end, through the appoint handler and `request`: on success the clicked rows show the counter the store now holds. On a repeat the rows stay and the repeat message is shown. Nothing is left in flight, and the table never breaks, since the handler never answers null. |
| FeatureSection.Initial | components/FeatureSection.tsx:40-42 | The panel starts on the built-in slides at index 0, with no fade running. |
| FeatureSection.View | components/FeatureSection.tsx:76-80 | Nothing renders exactly when there are no slides. A slide renders exactly when the index is in range, and it is the slide at the index. |
| FeatureSection.TickStart | components/FeatureSection.tsx:48-70 | A timer tick changes neither slides nor index. With slides, it starts a fade that carries the number of slides seen now; without slides no timer runs. |
| FeatureSection.Tick | components/FeatureSection.tsx:48-74 | A tick whose fade fires before anything else: with no slides nothing changes. Otherwise the index moves to the next slide and wraps to 0 after the last, staying in range. |
| FeatureSection.TickIsFadeEnd | components/FeatureSection.tsx:68-74 | The uninterrupted tick is exactly a tick's fade firing right after it starts. |
| FeatureSection.TicksAdvance | components/FeatureSection.tsx:71 | After k ticks from an index in range, the index is (start + k) mod n. |
| FeatureSection.FullCycle | components/FeatureSection.tsx:71 | n ticks on n slides bring the panel back to where it started. |
| FeatureSection.DotClick | components/FeatureSection.tsx:116-127 | A click on the current dot changes nothing. A click on another dot changes neither slides nor index yet; it starts a fade that will make that slide current. |
| FeatureSection.FadeEndAsWritten | components/FeatureSection.tsx:70-73 | As written: when a fade fires, a tick's sets the index to (index + 1) mod the length it captured, and a dot's sets the captured index, whatever the slides are now. |
| FeatureSection.LoadSlidesAsWritten | components/FeatureSection.tsx:57-66 | As written: a non-empty answer replaces the slides and keeps the index and the running fades; anything else leaves the panel unchanged. |
| FeatureSection.StepAsWritten | components/FeatureSection.tsx:48-127 | As written, one event: a tick starts its fade, a firing fade writes what it captured, and a load keeps the index. |
| FeatureSection.LoadAsWrittenCanCrash | components/FeatureSection.tsx:57-80 | Three slides, a click on the third dot and its fade, then a load of one slide: the render reads past the end. |
| FeatureSection.LoadSlides | components/FeatureSection.tsx:57-66 | Corrected: a non-empty answer replaces the slides and resets the index to 0, keeping the running fades; anything else leaves the panel unchanged. |
| FeatureSection.ResetAloneCanCrash | components/FeatureSection.tsx:57-80 | The reset alone does not suffice. A tick's fade still running when one slide arrives writes (0 + 1) mod 3, and the render reads past the end. |
| FeatureSection.FadeEnd | components/FeatureSection.tsx:70-73 | Corrected: a firing fade is checked against the current slides. A tick advances over them, and a dot whose slide is gone writes nothing, so an index in range stays in range. |
| FeatureSection.FadeEndAgreesWhenCurrent | components/FeatureSection.tsx:70-73 | While the slides are the ones the scheduling render saw, the corrected write is the component's write. |
| FeatureSection.WellFormedRenders | components/FeatureSection.tsx:76-80 | A panel whose index names a slide never crashes its render. |
| FeatureSection.Step | components/FeatureSection.tsx:48-127 | Corrected, one event: ticks, clicks on rendered dots, firing fades and loads keep the index naming a slide. The fades run as in the component. |
| FeatureSection.NeverCrashes | components/FeatureSection.tsx:44-127 | From the first render, no interleaving of ticks, dot clicks, fade timeouts and corrected loads crashes the render. |
| ComplaintPage.Initial | pages/ComplaintPage.tsx:6-9 | Both fields empty, not submitting, not submitted. |
| ComplaintPage.Press | pages/ComplaintPage.tsx:11-21 | A body is sent exactly when the form is on screen, its button is enabled, and the content is not all white space. Blank content only raises the "enter content" alert. A send marks the form as submitting and carries both fields as typed. |
| ComplaintPage.Settle | pages/ComplaintPage.tsx:20-29 | Never left submitting. A non-throwing answer clears both fields and shows the thank-you screen. A throw keeps the fields and shows "try later". |
| ComplaintPage.SentContentIsNeverBlank | pages/ComplaintPage.tsx:14-21 | Whatever the form sends, the server does not refuse as blank. |
| ComplaintPage.BlankNeverSent | pages/ComplaintPage.tsx:14-17 | Blank content sends nothing and keeps the fields and flags as they were. |
| ComplaintPage.SubmitRoundTrip | pages/ComplaintPage.tsx:11-30 | End to end, through the intake and `request`: when the store takes it, the form clears and the stored row holds the trimmed content as pending. When the store refuses, the table is unchanged and the form keeps what was typed. |
| ComplaintAdmin.Actions | pages/admin/Complaints.tsx:83-95 | The two status buttons show exactly on a pending row. Delete shows on every row, last. A non-pending row shows delete only. |
| ComplaintAdmin.Press | pages/admin/Complaints.tsx:85-93 | A button acts on its own row. Delete deletes, and a status button asks only for `processed` or `ignored`. |
| ComplaintAdmin.StatusTag | pages/admin/Complaints.tsx:73-77 | A tag's colour and caption are defined exactly for the three known statuses: orange/待处理, green/已处理, red/已忽略. Any other status gets a tag without them. |
| ComplaintAdmin.Serve | backend/src/routes/complaints.ts:110-121 | A delete call leaves exactly the rows of other ids. |
| ComplaintAdmin.StatusButtonsOneWay | pages/admin/Complaints.tsx:83-95 | A status button moves its row, and only its row, from pending to processed or ignored. The row then offers delete only, and every row keeps a tag. |
| ComplaintAdmin.Shown | pages/admin/Complaints.tsx:11-25 | After a filter change the table is ordered newest first. It shows exactly the rows of the chosen status, or every row when the filter is cleared. |
| ComplaintAdmin.ListReachesPage | pages/admin/Complaints.tsx:11-21 | The list answer reaches the page as a value, and it is the list for the chosen filter. |
| ComplaintAdmin.FilterShowsExactly | pages/admin/Complaints.tsx:103-112 | A status filter shows a row exactly when it has that status; a cleared filter shows exactly the rows of the table. |

## Left out

- Ids: the store assigns ids (UUIDs). The model picks a natural number no row uses; for games it also avoids every game id on an appointment row.
- Clock: the UTC day of an appointment, `created_at`, `updated_at` and `last_login` are inputs.
- Password hashing and token signing (bcrypt, JWT) are function parameters. The verification of tokens by the authentication middleware is not part of this model; a missing or bad token is the `authed` flag, answered with `Denied`.
- Store failures: a failed list, create, update or delete answers 500 in the source. The model covers only the failures it names: the appointment and complaint inserts, and `.single()` finding no single row. Other queries always succeed.
- Request bodies are well typed. An absent field is `None`, and the client drops it before sending. JSON `null`, wrong types and `.trim()` on a non-string are not modelled.
- Games.Appoint: sequential only. The counter re-read and write-back is not atomic, so concurrent appointments can lose updates. The write-back's own error is ignored, as in the source.
- Complaints.SetStatus: the server accepts any status text. Only the admin page limits it to `processed` and `ignored`.
- ApiClient.ParseStatus: Express's query parser is given the plain meaning "the text after `?status=` up to `&` or `#`". It also decodes `+` as a space and decodes `%XX` escapes, and the page encodes neither. Before the query reaches the server, the browser's URL parser also removes tabs, line feeds and carriage returns, and strips trailing spaces and C0 control characters. Neither the decodings nor the browser's removals are modelled, so QueryRoundTrip and AskedListIsServedList are stated for a status without `&`, `#`, `+`, `%`, tab, line feed or carriage return, and not ending in a space or control character.
- Wire format: the appoint reply `{ success, appointment_count }` is the count; the complaint reply `{ success, id }` is the id.
- GameList: every throw in the appointment path is an `Error`, so the fallback text "预约失败" for non-`Error` throws never shows.
- FeatureSection: the 6 s interval is not modelled. Any interleaving of ticks, fades and loads is allowed, and the timer's restart on every index change has no effect on the state. The `isFading` opacity is not modelled either; a running fade is an entry in `fades`. A tick captures the slide count current when it fires: the interval is re-created whenever that count changes.
- FeatureSection.DotClick: requires a dot index below the number of slides, because only those dots are rendered.
- ComplaintAdmin.StatusTag: a status named like an `Object.prototype` key (`constructor`, say) looks up a function, not `undefined`. The model gives it no colour and no caption, like any other unknown status.
- ComplaintAdmin: after an action the page re-fetches the list and shows a toast. Only the request each button sends and the server's effect are modelled.
- Auth.Init: the reset answer carries the updated rows, hashes included; the model answers them as rows.
- Sorting: the store's order among rows with equal keys is unspecified. The model sorts with a stable insertion sort, and the contracts promise only sortedness and the same rows.
- Settings: the upsert is taken to resolve conflicts on `key`, since the table's schema is not shown.
- Logging (`console.error`, `console.log`) and the browser's `alert`, `window.open` and navigation become values: the alert text, or the `Effect` of an action.
- Express wiring, the store's client configuration, the one-shot `init_admin` scripts and the form-only admin pages are not part of this model.

## Findings

| source | as written | input that shows it | evidently intended | confidence | as-written member | corrected member |
|---|---|---|---|---|---|---|
| components/FeatureSection.tsx:57-66 | `loadSlides` replaces the slides but keeps `currentIndex`, and the render then reads `slides[currentIndex]` (line 80). A fade still running when the slides arrive (lines 70-73, 122-125) later writes an index computed for the old slides. | The three built-in slides, the third made current by its dot (or two timer ticks) before the load answers, then a load of one slide: index 2 on one slide, and the render reads a field of `undefined`. | Reset the index when the slides are replaced, and check each fade's write against the slides current when it fires, so the index always names a slide. | not executed; medium, because it needs the fetch to answer after a dot click or tick | FeatureSection.LoadAsWrittenCanCrash | FeatureSection.NeverCrashes |
