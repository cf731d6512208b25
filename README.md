# Video-downloader bot: statistics record, dispatch decisions and text rewriting

`main.py` is a Telegram bot. A user sends it a video link. The bot checks the
link, picks a download adapter by platform, uploads the file as a video or as
a document depending on its size, and schedules both messages for deletion
after 30 minutes. It also keeps a small statistics record of its users
(active and blocked) that `/start` and chat-membership updates change and
`/stats` reports to the owner. Every text answer goes through `format_text`,
which turns `**bold**` into HTML `<b>bold</b>`.

The project has four modules, one per concern of the handlers:

- `Wrappers` (`wrappers.dfy`): the `Option` type.
- `TextFormat` (`text_format.dfy`):
  - `format_text` and `clean_text` as left-to-right scanners, each doing one `re.sub` pass (`clean_text` is defined in `main.py` but no handler calls it);
  - `Unformat`, the reverse reading of the bold tags;
  - a chunk model of coloured text, used as a reference for `clean_text`.
- `UserStats` (`user_stats.dfy`):
  - the record `{total_users, blocked_users, user_ids, blocked_user_ids}` as a value;
  - one function per handler saying what that handler does to the record;
  - `StatsStore`, a class holding the record in mutable fields. Its methods make the same in-place updates as `start` and `handle_block`, statement by statement, and each is proved equal to its function;
  - the record invariant, preserved by every update and by every sequence of events starting from the empty record.
- `Dispatch` (`dispatch.dfy`):
  - `str.strip()` and the link check;
  - the ordered platform classifier, with a table-driven reference definition;
  - the size-based upload choice;
  - `HandleText`, the sequence of outbound actions one text message causes. The download adapters and the outcome of each delivery step are its parameters.

## Model

| member | source | states |
|---|---|---|
| TextFormat.CloseIn | main.py:42 | When the lazy group `(.*?)` ends, a closing `**` starts at that index. |
| TextFormat.CloseInFirst | main.py:42 | The group ends at the first closing `**` and never crosses a newline, because `.` does not match one. |
| TextFormat.CloseInFinds | main.py:42 | If a closing `**` comes before any newline, the lazy group stops at the first such one. |
| TextFormat.CloseInBlocked | main.py:42 | A newline that comes before every closing `**` makes the match fail. |
| TextFormat.CloseInNone | main.py:42 | With no closing `**` ahead, the match fails. |
| TextFormat.FormatCopiesFirst | main.py:42 | A leading character other than `*` is copied, and the scan goes on from the next character. |
| TextFormat.FormatPlainPrefix | main.py:42 | A prefix with no `*` comes through unchanged in front of the formatted rest. |
| TextFormat.FormatText | main.py:38-42 | The output is never shorter than the input: every replaced `**…**` pair gives `<b>…</b>`, three characters longer. `FormatRoundTrip` states its inverse. |
| TextFormat.FormatNoMarker | main.py:38-42 | Text containing no `**` is returned unchanged. |
| TextFormat.FormatBoldSpan | main.py:42 | `"**" + s + "**" + b`, where `s` has no `*` and no newline, becomes `"<b>" + s + "</b>"` followed by the formatted `b`. |
| TextFormat.FormatSinglePair | main.py:38-42 | `"**" + s + "**"`, where `s` has no `*` and no newline, becomes `"<b>" + s + "</b>"`. |
| TextFormat.FormatLeadIn | main.py:42 | A plain lead-in (such as a notice's emoji), one closed pair and a plain tail: the lead-in and the tail are kept and the pair turns bold. |
| TextFormat.FormatBoldThenPlain | main.py:42 | One closed pair followed by a tail with no `*`: the pair turns bold and the tail is copied. |
| TextFormat.FormatFailedOpen | main.py:42 | When an opening `**` finds no partner on its line, it is copied as it is and scanning resumes after it. `***…` is included: the marker that re-opens at the second `*` fails to close as well. |
| TextFormat.CloseInAfterStar | main.py:42 | A lone `*` in front cannot be what lets the lazy group close: if the group fails after `*` + r, it fails after r. |
| TextFormat.FormatUnclosed | main.py:38-42 | `**` followed by text containing no `**` (stray single `*` allowed) is left as it is. |
| TextFormat.FormatSplitByNewline | main.py:38-42 | A pair split by a newline, with no `**` on either side, is left as it is. |
| TextFormat.NewlineBlocksClose | main.py:42 | After an opening marker, a newline that comes before any `**` blocks the match. |
| TextFormat.NoMarkerAround | main.py:42 | Joining two texts that contain no `**` with a newline creates no `**`. |
| TextFormat.FormatThenMarker | main.py:38-42 | Text with no `**` followed by a final `**` is left as it is: that last marker has nothing to close it. |
| TextFormat.UnformatPlainPrefix | main.py:42 | The reverse reading copies a prefix that has no `<`. |
| TextFormat.UnformatOpenTag | main.py:42 | The reverse reading maps `<b>` back to `**`. |
| TextFormat.UnformatCloseTag | main.py:42 | The reverse reading maps `</b>` back to `**`. |
| TextFormat.FormatRoundTrip | main.py:38-42 | Formatting loses nothing: for text with no `<`, turning both tags back into `**` gives the original text. |
| TextFormat.SpanParts | main.py:42 | A matched span splits the text into the opening marker, the group, the closing marker and the rest, and is replaced by the group in bold. |
| TextFormat.ParamRun | main.py:46 | The maximal run of `[0-9;]` at the start of the text. |
| TextFormat.SgrLength | main.py:46 | A colour code at the start of the text is `ESC [`, then `[0-9;]*`, then `m`. |
| TextFormat.CleanText | main.py:44-46 | Removing codes never makes the text longer. |
| TextFormat.CleanNoEscape | main.py:44-46 | Text with no escape character is returned unchanged. |
| TextFormat.CleanCopiesFirst | main.py:46 | A leading character other than the escape is copied. |
| TextFormat.CleanPlainPrefix | main.py:46 | A prefix with no escape character comes through unchanged. |
| TextFormat.CleanColourPrefix | main.py:46 | A well-formed colour code at the front is removed completely. |
| TextFormat.CleanRemovesColourCodes | main.py:44-46 | Text built from plain pieces and well-formed colour codes comes out as the plain pieces alone. |
| TextFormat.CleanSinglePass | main.py:46 | One pass can leave a colour code behind: `ESC ESC [ m [ m` becomes `ESC [ m`, which a second pass would remove. |
| UserStats.EmptyWellFormed | main.py:79 | The default record `{0, 0, [], []}` is well formed, with both counters at zero and no user listed. |
| UserStats.RemoveFirst | main.py:355-369 | Python's `list.remove` on a present value shortens the list by one. Python raises `ValueError` on an absent value; every call (main.py lines 243, 357 and 368) is guarded by a membership test, so the model, which leaves the list unchanged there, never differs from the source. |
| UserStats.RemoveFirstMultiset | main.py:355-369 | Exactly one occurrence of the value is removed, when there is one. |
| UserStats.RemoveFirstNoDuplicates | main.py:355-369 | Removing from a duplicate-free list leaves it duplicate-free and without the value. |
| UserStats.AfterStart | main.py:229-245 | After `/start` the user is active, the total equals the length of the active list, and no active user is lost. |
| UserStats.StartPreservesWellFormed | main.py:233-243 | `/start` keeps the invariant: total equals the active count, blocked counter equals the blocked count, both lists are duplicate-free and disjoint. |
| UserStats.StartRegistersUser | main.py:233-243 | After `/start` the user is active exactly once and not blocked. The blocked counter drops by one exactly when the user had been blocked, and never goes below zero. Every other user keeps their status. |
| UserStats.StartKeepsInvariant | main.py:233-243 | Helper for `StatsStore.Start`: the invariant and the user's registration, taken together as one conclusion. |
| UserStats.StartIdempotent | main.py:233-243 | A second `/start` from the same user changes nothing. |
| UserStats.BlockUser | main.py:355-362 | The block branch lists the user as blocked and raises the blocked counter by one. When the user was active, the active list shrinks by one. |
| UserStats.UnblockUser | main.py:364-369 | The unblock branch lists the user as active again, one entry longer. The blocked counter never goes below zero, and the blocked list shrinks by one when the user was on it. |
| UserStats.AfterMemberUpdate | main.py:352-374 | The total is recomputed from the active list. A `kicked`/`left` update for an active user makes them blocked, and a `member` update for a blocked user makes them active. |
| UserStats.MemberUpdatePreservesWellFormed | main.py:355-372 | Every membership update keeps the invariant. |
| UserStats.MemberUpdateKeepsInvariant | main.py:355-372 | Helper for `StatsStore.HandleBlock`: the invariant is preserved, stated as an implication for any record. |
| UserStats.BlockMovesUser | main.py:355-372 | `kicked`/`left` for an active user removes them from the active list and appends them to the blocked list. The blocked counter rises by one and the total falls by one. |
| UserStats.UnblockMovesUser | main.py:364-372 | `member` for a blocked user removes them from the blocked list and appends them to the active list. The blocked counter falls by one, never below zero, and the total rises by one. |
| UserStats.MemberUpdateOtherwiseUnchanged | main.py:355-372 | In every other case, only the total is recomputed from the active list. |
| UserStats.MemberUpdateIdempotent | main.py:346-374 | On a well-formed record, two runs of the same update give the record that one run gives. |
| UserStats.DoubleBlockCountsOnce | main.py:346-362 | Blocking twice raises the blocked counter by exactly one. |
| UserStats.DuplicateEntryDoubleCounts | main.py:355-362 | Idempotence depends on the invariant: with a user listed twice as active, a repeated block is counted twice. |
| UserStats.ReplayWellFormed | main.py:229-374 | Starting from the empty default record, every sequence of `/start` and membership events leaves the record well formed. |
| UserStats.StatsFor | main.py:381-394 | `/stats` gives a report exactly when the caller is the owner, and the report carries the stored counters. Anyone else is refused. |
| UserStats.StatsStore.constructor | main.py:79 | The store starts as the default record `{0, 0, [], []}`, which is well formed. |
| UserStats.StatsStore.Start | main.py:229-245 | The in-place `/start` update leaves the store equal to `AfterStart` of its old value, keeps the invariant and registers the user once. |
| UserStats.StatsStore.HandleBlock | main.py:352-374 | The in-place membership update leaves the store equal to `AfterMemberUpdate` of its old value and keeps the invariant. |
| UserStats.StatsStore.OnMembershipChange | main.py:346-374 | The handler is registered twice. If both registrations run, the result on a well-formed store is still that of a single run, and the invariant holds. |
| UserStats.StatsStore.Stats | main.py:381-394 | The reply is a report exactly when the caller is the owner, and it carries the stored counters. |
| Dispatch.LeadingSpace | main.py:280 | Where the text starts once leading whitespace (Python's `str.isspace` set) is skipped. |
| Dispatch.TrailingSpace | main.py:280 | Where the trailing whitespace begins. |
| Dispatch.Strip | main.py:280 | `strip()` gives the slice between leading and trailing whitespace. It starts and ends with a non-space, and is empty exactly when the text is all whitespace. |
| Dispatch.StartsWithLink | main.py:283-285 | The check as the matcher runs it: `http://` or `https://` followed by one character that is not whitespace. `StartsWithLinkIffPrefixMatches` relates it to the pattern. |
| Dispatch.PassesGate | main.py:280-285 | The gate strips the text and then checks it. A message that is empty or all whitespace never passes. |
| Dispatch.StartsWithLinkIffPrefixMatches | main.py:283-285 | The check passes exactly when some prefix of the stripped text is a whole match of `https?://[^\s]+`: `re.match` anchors at the start only. |
| Dispatch.TrailingTextAllowed | main.py:283-285 | Whatever follows an accepted start is allowed. |
| Dispatch.Contains | main.py:291-298 | Python's `sub in s`: `sub` is a prefix of `s` or occurs in the rest after its first character. `ContainsIff` ties it to an occurrence at some index. |
| Dispatch.ContainsIff | main.py:291-298 | Python's `sub in s` holds exactly when `sub` occurs at some index of `s`. |
| Dispatch.NotContainedWithoutChar | main.py:291-298 | A key one of whose characters is absent from the link is not in it. |
| Dispatch.Classify | main.py:291-301 | The if/elif chain on the stripped link: YouTube, Instagram, TikTok, Twitter, otherwise unsupported. `ClassifyIsFirstMatch` ties it to the ordered table. |
| Dispatch.ClassifyIsFirstMatch | main.py:291-301 | The if/elif chain agrees with the ordered table (youtube.com or youtu.be, instagram.com, tiktok.com, twitter.com): the first row with a matching key wins. |
| Dispatch.YouTubeWins | main.py:291-292 | A link containing `youtube.com` is YouTube whatever else it contains, `tiktok.com` included. |
| Dispatch.TikTokWhenOnlyKey | main.py:291-296 | A link that contains `tiktok.com` and none of `youtube.com`, `youtu.be` and `instagram.com` is TikTok. |
| Dispatch.TikTokLinkIsTikTok | main.py:291-296 | Corollary of `TikTokWhenOnlyKey`: a link `a + "tiktok.com" + b`, where `a` and `b` have no `y` and no `g`, is TikTok, because it cannot contain any earlier key. |
| Dispatch.ChooseUpload | main.py:324 | A file larger than 50 MiB is sent as a document, any other as a video. `UploadBoundary` pins the limit to the byte. |
| Dispatch.UploadBoundary | main.py:323-333 | A file larger than 52428800 bytes goes as a document, and one of 52428800 bytes or fewer as a video. |
| Dispatch.NoticeText | main.py:287-344 | The five notices as the handlers write them: the emoji, the bold words between `**` markers, then the plain tail (only the invalid-link notice has one). `NoticeWordsPlain` and `RenderedNotice` state their properties. |
| Dispatch.Rendered | main.py:55-57 | The patched `answer` passes the notice through `format_text` before sending it. `RenderedNotice` states the result for every notice. |
| Dispatch.NoticeWordsPlain | main.py:287-344 | No piece of any notice the handlers send contains `*` or a newline, apart from the marker pair around its bold part. |
| Dispatch.RenderedNotice | main.py:55-57 | Every notice comes out of the patched `answer` with its bold part between `<b>` and `</b>`, its emoji in front and its plain tail after. |
| Dispatch.Deliver | main.py:314-345 | Sending a file always ends with the send-failure notice or with scheduling the sent message for deletion. The sent message is scheduled exactly when reading the size, uploading and removing the file all succeed. An upload comes first and uses the method chosen by size. |
| Dispatch.HandleText | main.py:273-312 | A message causes no action at all, or its first action is the processing notice. |
| Dispatch.SilentUnlessLink | main.py:280-285 | A message produces no action at all exactly when it fails the link check. |
| Dispatch.LinkAcknowledgedThenDispatched | main.py:287-301 | A message that passes is answered first with the processing notice. A known platform's adapter is then called, exactly once, with the stripped link. An unknown platform gets only the invalid-link notice. |
| Dispatch.DeletionScheduled | main.py:307-345 | Once a file name is obtained, the request is always scheduled for deletion, last. The sent message is scheduled exactly when reading the size, uploading and removing the file all succeed. |
| Dispatch.SuccessfulDelivery | main.py:287-341 | The complete successful run: processing notice, adapter call, upload chosen by size, local file removal, and both deletions after 1800 seconds. |

## Left out

- The download adapters (`download_youtube`, `download_instagram`, `download_tiktok`, `download_twitter`, `download_file`) are wrappers over yt-dlp and third-party HTTP APIs. They are modelled only through their outcome, passed to `HandleText`: raised, no file, or a file name.
- File-system and upload outcomes (`os.path.getsize`, the upload call, `os.remove`) are inputs of the model (`DeliveryEnv`), not computed.
- JSON persistence (`load_data`/`save_data`) is not modelled. The record lives in memory, starting from the default at main.py:79. The unlocked read-modify-write between concurrent handlers is concurrency and is not modelled.
- JSON that fails to load falls back to the default record; the model takes that default as its starting state.
- A missing `blocked_user_ids` key is modelled as the empty list. The handlers treat the two identically, and only the stored JSON differs.
- Scheduling (`schedule_deletion`, `asyncio.sleep`, `create_task`, `to_thread`) is fire-and-forget timing. It appears only as `ScheduleDeletion` actions with their delay. A deletion that fails later is not modelled.
- The patched `Message.answer` and `Message.edit_text` (main.py:51-65) are represented by `Dispatch.Rendered`, which passes every notice through `FormatText`; `Dispatch.RenderedNotice` proves the bold output of each one. The notice texts are stored as lists of words so that the verifier can check them piece by piece.
- Every outbound text answer (`message.answer`) is assumed to succeed. A failing answer is not modelled: the processing notice raising (after which nothing else happens), the send-failure notice at main.py:344 raising (so main.py:310 never runs), and the `/stats` error reply at main.py:396-398.
- Captions of uploads, the welcome and help texts, and the text of the `/stats` report are not modelled. The report is modelled as the pair of counters it shows.
- aiogram wiring is not modelled: routers, the inline keyboard, the help callback and polling. Whether the dispatcher runs a twice-registered handler once or twice is not modelled either; `StatsStore.OnMembershipChange` proves that, on a well-formed record, both readings give the same record.
- Timestamp-based file names and the `BOT_TOKEN` lookup depend on the environment and are not modelled.
- `message.text` being `None` is not modelled: a message is modelled as its string.
- A `KeyError` on a saved record that lacks `user_ids` or `blocked_users` is not modelled. The record always has both fields.
- User identifiers are unbounded integers, like Python's.
- Where the docstring of `send_large_video` and its code disagree, `Dispatch.Deliver` follows the code. The docstring (main.py:316-320) says the local file is deleted after sending and the sent message is scheduled for deletion after 30 minutes. In the code, a failing `os.remove` (main.py:336) raises into the `except` branch (main.py:342): the user gets the send-failure notice, and the scheduling at main.py:340 never runs.
