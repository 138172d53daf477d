# FixupXer bot: a Dafny model of link conversion and `/delete`

FixupXer is a Telegram bot. It watches group messages for x.com and twitter.com links and
replaces them with links to the embedding mirrors fixupx.com and fxtwitter.com. It first strips
the tracking parameters from each link's query. It then reposts the message under the bot's
name: an attribution line, the user's own words around the link, and the converted link. It
deletes the user's original message and remembers who the repost belongs to. That person, or
an administrator of the chat, can later remove the repost by replying to it with `/delete`.

This project models the core of `fixupxer_bot.py`:

- `Query` models `parse_qs` and `urlencode(doseq=True)`. A query is an ordered dictionary from
  keys to their lists of values.
- `Urls` models `urlparse` and `urlunparse` on the six-field result.
- `Normalize` models `TRACKING_PARAMS`, `clean_url` and `convert_to_fixupx`.
- `Links` models `URL_PATTERN` in two forms: a reference predicate saying what a link is, and
  the scanner that `finditer` runs.
- `Repost` models the display name, the attribution line and the repost text, and the choice
  of which link of a message to act on.
- `Bot` models `process_message` and `delete_command`.
  - Each handler is a function. It maps the bot's message map and the outcomes of the calls it
    makes to the calls it issues and the new map.
  - Each handler is also a method of the `FixupBot` class. The method updates
    `userMessageMap` in place and talks to a `Transport` object that logs every call. Each
    method is proved to do exactly what its function says.
- `Text` holds Python string operations. The bot itself uses `in`, `replace`, `lower` and
  `strip`. The modelled parts of `urllib.parse` use `find`, `rfind`, `split` and `join`.
- `Options` holds an `Option` type.

Telegram and the statistics database stay outside the model. Each call to them becomes a
`Transport` method that appends the call to a log and returns an arbitrary result: a sent
message id or none, success or failure. A handler's contract therefore covers every way those
calls can end.

Where the code and the bot's own help text disagree, the model follows the code:

- `/delete` is honoured on a reply to any bot's message, not only this bot's. The help texts at
  fixupxer_bot.py:215 and fixupxer_bot.py:230 speak of the bot's own messages. The code checks
  `from_user.is_bot` and nothing more.

Facts about the code as written that the model proves:

- `convert_to_fixupx` is not idempotent. `Normalize.ConvertNotIdempotent` gives the inputs
  that show it.
- After a refusal, the message deleted five seconds later is the requester's command, not the
  refusal reply. This is what the comment at fixupxer_bot.py:341 says. `Bot.DeleteRefused`
  states it.
- The link the bot posts carries no tracking parameter, as its help text promises.
  `Normalize.ConvertDropsTracking` states it. This holds even though the host rewrite runs over
  the whole cleaned link, query included.

## Model

| member | source | states |
|---|---|---|
| Query.ParseQsl | fixupxer_bot.py:163 | `parse_qsl`: the fields between `&`, each kept as a pair when `Query.FieldPair` keeps it; its properties are in `Query.ParseQslValid` and `Query.FieldsToPairsOfFields` |
| Query.ParseQs | fixupxer_bot.py:163 | `parse_qs`: the pairs of `parse_qsl` grouped by key in first-occurrence order; its properties are in `Query.ParseQsWellFormed` and `Query.EncodeRoundTrip` |
| Query.Urlencode | fixupxer_bot.py:169 | `urlencode(d, doseq=True)`: one `key=value` field per value, in key order, joined by `&`; `Query.EncodeRoundTrip` is its inverse |
| Query.Without | fixupxer_bot.py:166 | the dictionary comprehension that drops keys; `Query.WithoutEntries` and `Query.WithoutKeys` state what it keeps |
| Query.FieldPair | fixupxer_bot.py:163 | a query field yields a pair exactly when it holds `=` with a non-empty value after the first `=`; the pair's key has no `=`, and key, `=`, value spell the field |
| Query.KeyIndex | fixupxer_bot.py:163 | the index of a key in the parsed dictionary is its first occurrence, and is -1 exactly when the key is absent |
| Query.ParseQslValid | fixupxer_bot.py:163 | every pair `parse_qsl` produces has a key without `&` or `=` and a non-empty value without `&` |
| Query.ParseQsWellFormed | fixupxer_bot.py:163 | the dictionary `parse_qs` returns has distinct keys, at least one value per key and no separator inside a key or value; its keys are exactly the keys of the parsed pairs |
| Query.GroupPairs | fixupxer_bot.py:163-169 | grouping the pairs that `urlencode(doseq=True)` emits for a well-formed dictionary rebuilds that dictionary |
| Query.FieldsToPairsOfFields | fixupxer_bot.py:163-169 | parsing the `key=value` fields written for valid pairs gives those pairs back |
| Query.EncodeRoundTrip | fixupxer_bot.py:163-169 | `parse_qs(urlencode(d, doseq=True)) == d` for every well-formed dictionary |
| Query.WithoutEntries | fixupxer_bot.py:166 | the dictionary comprehension keeps exactly the entries whose key is not a tracking parameter |
| Query.WithoutKeys | fixupxer_bot.py:166 | the remaining keys are the original keys minus the tracking parameters |
| Query.WithoutWellFormed | fixupxer_bot.py:166 | dropping keys keeps a dictionary well-formed |
| Query.WithoutTwice | fixupxer_bot.py:166 | dropping the tracking keys twice is the same as dropping them once |
| Query.ParseQslReplace | fixupxer_bot.py:163 | replacing a piece by a non-empty text, neither holding `&` or `=`, in a query string replaces it in every key and value `parse_qsl` reads, keeping the same pairs in the same order |
| Query.UrlencodeLacks | fixupxer_bot.py:169 | `urlencode` introduces no character other than `&` and `=` that was absent from the dictionary |
| Urls.Parse | fixupxer_bot.py:162 | `urlparse`: scheme, netloc, fragment, query and params split off in that order; `Urls.ParseUnparse` and `Urls.ParseWellFormed` state its properties |
| Urls.Unparse | fixupxer_bot.py:170-177 | `urlunparse` of the six components; `Urls.ParseUnparse` states that `Urls.Parse` inverts it |
| Urls.SplitSchemeWellFormed | fixupxer_bot.py:162 | the scheme `urlparse` reports starts with a letter, holds only scheme characters and is lower-case |
| Urls.ParseWellFormed | fixupxer_bot.py:162 | whenever `urlparse` finds a netloc, the six components it returns are well-formed |
| Urls.ParseUnparse | fixupxer_bot.py:162-177 | `urlparse(urlunparse(u)) == u` for every well-formed `u` |
| Urls.ParseAuthority | fixupxer_bot.py:185-186 | a text starting with `scheme://netloc` and then a netloc delimiter parses to that scheme and netloc |
| Urls.UnparseAuthority | fixupxer_bot.py:170-177 | `urlunparse` of a URL with a scheme writes `scheme://netloc`, then a delimiter or nothing |
| Links.IsLink | fixupxer_bot.py:207 | the reference reading of `URL_PATTERN`: `https?://`, an optional `www.`, one of the four hosts, `/`, and a non-empty run of non-whitespace characters; `Links.LinkParts` recovers the parts |
| Links.HeadLength | fixupxer_bot.py:207 | the matcher's measure of the prefix up to and including the `/` after the host; `Links.HeadLengthSpec` states it |
| Links.MatchAt | fixupxer_bot.py:207 | the matcher: where the pattern matching at an index ends, if it matches; `Links.MatchAtSpec` states that it agrees with `Links.IsLink` |
| Links.RunEnd | fixupxer_bot.py:207 | the greedy `[^\s]+` stops at the first whitespace character or at the end of the text |
| Links.HeadLengthSpec | fixupxer_bot.py:207 | the prefix `https?://(?:www\.)?(hosts)/` the matcher measures is a head of the pattern, and no other prefix length is |
| Links.MatchAtSpec | fixupxer_bot.py:207 | the pattern matches at index i with end e exactly when `text[i..e]` is a link and e is the end of the text or a whitespace character |
| Links.ScanFrom | fixupxer_bot.py:383 | `finditer`, given the end of the pattern's match at each index, reports in order and without overlap matches that start where the pattern matches and end where that match ends |
| Links.ScanCovers | fixupxer_bot.py:383 | from any resume position, every later index where the pattern matches lies inside a reported match |
| Links.Matches | fixupxer_bot.py:383 | every reported match is non-empty and lies inside the text |
| Links.MatchesAreLinks | fixupxer_bot.py:383-384 | every `match.group(0)` is a link of the pattern, ended by whitespace or by the end of the message |
| Links.MatchesCover | fixupxer_bot.py:383 | no index where the pattern matches is skipped: it lies inside some reported match |
| Links.LinkParts | fixupxer_bot.py:207 | a link splits into `https?://`, an optional `www.`, one of the four hosts, `/` and a non-empty run of non-whitespace characters |
| Normalize.CleanQuery | fixupxer_bot.py:163-169 | the query `clean_url` rebuilds: `parse_qs`, the `TRACKING_PARAMS` keys of lines 32-35 dropped, `urlencode(doseq=True)`; its properties are in the `Normalize.CleanQuery*` rows |
| Normalize.CleanUrl | fixupxer_bot.py:161-179 | `clean_url`: the URL parsed, its query replaced by `Normalize.CleanQuery`, put back together; its properties are in the `Normalize.CleanUrl*` rows |
| Normalize.ConvertToFixupx | fixupxer_bot.py:183-204 | `convert_to_fixupx`, with its mirror check on the lower-cased netloc and its two whole-text replacements; its properties are in the `Normalize.Convert*` rows |
| Normalize.ConvertedHost | fixupxer_bot.py:193-201 | the host a converted link ends up with: fixupx.com for x.com; fxtwitter.com for twitter.com unless `x.com` occurs later in the cleaned link; a mirror stays; `Normalize.ConvertLink` states that conversion yields it |
| Normalize.TrackingNoDot | fixupxer_bot.py:32-35 | no tracking key contains a `.` |
| Normalize.CleanQueryParses | fixupxer_bot.py:163-169 | reading the cleaned query back gives the original parameters without the tracking ones, each remaining key with all its values in order |
| Normalize.CleanQueryEntries | fixupxer_bot.py:163-169 | an entry or key survives cleaning exactly when it was present and is not a tracking parameter |
| Normalize.CleanQueryIdempotent | fixupxer_bot.py:163-169 | cleaning an already cleaned query changes nothing |
| Normalize.CleanUrlParts | fixupxer_bot.py:161-179 | `clean_url` keeps scheme, netloc, path, params and fragment, and replaces only the query by its cleaned form |
| Normalize.CleanUrlIdempotent | fixupxer_bot.py:161-179 | `clean_url(clean_url(u)) == clean_url(u)` for every URL with a netloc |
| Normalize.CleanUrlDropsTracking | fixupxer_bot.py:161-179 | a query key of the cleaned URL is exactly a key of the original URL that is not in `TRACKING_PARAMS` |
| Normalize.CleanUrlShape | fixupxer_bot.py:161-179 | the cleaned URL still begins with `scheme://netloc` followed by a delimiter or nothing |
| Normalize.CleanLink | fixupxer_bot.py:161-179 | cleaning a link of the pattern keeps its scheme and its netloc `www.`+host |
| Normalize.ConvertPlain | fixupxer_bot.py:193-204 | on an x.com or twitter.com netloc the result is the cleaned URL with every `x.com` rewritten, or failing that every `twitter.com`, or unchanged |
| Normalize.ConvertMirror | fixupxer_bot.py:188-190 | on a fixupx.com or fxtwitter.com netloc the result is just the cleaned URL |
| Normalize.RewriteQuery | fixupxer_bot.py:196-201 | rewriting `x.com` or `twitter.com` over the whole cleaned link rewrites the query `urlparse` reads from it in the same way |
| Normalize.ConvertQuery | fixupxer_bot.py:183-204 | for every link of the pattern, the result is the cleaned link with one of the two rewrites or with none, and its query is the cleaned query with that same rewrite |
| Normalize.ConvertedPairs | fixupxer_bot.py:183-204 | the query pairs of the converted link are those of the cleaned link, in order, with the rewrite applied to each key and each value |
| Normalize.RewrittenKey | fixupxer_bot.py:32-35 | a key that is not a tracking key stays one that is not once rewritten, because a rewrite that changes it puts a `.` in it |
| Normalize.ConvertDropsTracking | fixupxer_bot.py:161-204 | no query key of the link `convert_to_fixupx` returns for a link of the pattern is a tracking parameter |
| Normalize.ConvertMirrorIdempotent | fixupxer_bot.py:185-190 | when the lower-cased netloc names a mirror, converting only cleans, and converting twice is the same as converting once |
| Normalize.ConvertRewrites | fixupxer_bot.py:193-201 | the converted URL starts with the same scheme and `www.`, then the host x.com becomes fixupx.com, and twitter.com becomes fxtwitter.com unless the cleaned text holds `x.com` somewhere |
| Normalize.ConvertLink | fixupxer_bot.py:183-204 | for every link of the pattern, conversion keeps the scheme, rewrites the host as above and only cleans links already on a mirror |
| Normalize.ConvertTwice | fixupxer_bot.py:183-204 | whenever the first conversion lands on a mirror host, converting the result again only cleans it and keeps its scheme and netloc |
| Normalize.CleanWithoutQuery | fixupxer_bot.py:161-179 | a well-formed URL without a query is its own cleaned form |
| Normalize.ConvertTwitterText | fixupxer_bot.py:196-197 | a clean twitter.com URL whose path contains `x.com` has that `x.com` rewritten to `fixupx.com`, and the host stays twitter.com |
| Normalize.TwitterLink | fixupxer_bot.py:207 | `https://twitter.com/<a>x.com` is a link of the pattern when the segment `<a>` holds no `x`, `?`, `#`, `;` or whitespace |
| Normalize.ConvertNotIdempotent | fixupxer_bot.py:183-204 | for such a segment, `https://twitter.com/<a>x.com` converts to `.../<a>fixupx.com`, and converting that again gives `.../<a>fixupfixupx.com`: the conversion is not idempotent |
| Repost.DisplayName | fixupxer_bot.py:377 | `@` and the username when there is one, the first name otherwise |
| Repost.Attribution | fixupxer_bot.py:392 | the italic attribution line naming the poster, with the literal phrase the source writes where a date and time would go |
| Repost.UserText | fixupxer_bot.py:403-407 | `user_text` before its final strip, given the stripped text before and after the link: the first and a space when it is non-empty, then the second when it is non-empty; `Repost.UserTextStrip` states the stripped form |
| Repost.RepostText | fixupxer_bot.py:392-417 | `final_message`; `Repost.RepostShape` states its shape |
| Repost.NonEmpty | fixupxer_bot.py:403-407 | the pieces kept in the user text are non-empty |
| Repost.UserTextStrip | fixupxer_bot.py:403-413 | building `user_text` from two stripped pieces and stripping it joins the non-empty ones with a single space |
| Repost.SurroundingCases | fixupxer_bot.py:399-407 | the user's words are the stripped text before the link and after it, joined by one space when both are non-empty, or whichever is non-empty |
| Repost.UserTextOf | fixupxer_bot.py:399-413 | the stripped `user_text` of a message is exactly its surrounding words |
| Repost.RepostShape | fixupxer_bot.py:392-417 | every repost is the attribution line, then a blank line and the user's words exactly when there are any, then a blank line and the converted link |
| Repost.FirstChanged | fixupxer_bot.py:383-389 | the link acted on is the first match whose conversion differs from it; every earlier match converts to itself; with none, no match changes |
| Repost.MatchesInside | fixupxer_bot.py:383-384 | every match `finditer` reports lies inside the message |
| Bot.Process | fixupxer_bot.py:358-451 | `process_message` as a function of the map and of how its calls end; its properties are in the `Bot.Process*` rows |
| Bot.Act | fixupxer_bot.py:390-451 | what `process_message` does once a link is picked; `Bot.ActSendsFirst` and `Bot.ActDeletes` state it |
| Bot.Delete | fixupxer_bot.py:303-356 | `delete_command` as a function of the map and of how its calls end; its properties are in the `Bot.Delete*` rows |
| Bot.MayDelete | fixupxer_bot.py:318-321 | an administrator, the creator, or the user the map records for the message may delete it |
| Bot.PickedLink | fixupxer_bot.py:383-389 | the link `process_message` acts on is a link of the pattern that `convert_to_fixupx` changes, and every earlier link in the message converts to itself |
| Bot.ProcessUnchanged | fixupxer_bot.py:363-373 | a human's message with no link that conversion changes only records the user and the chat |
| Bot.ProcessChanged | fixupxer_bot.py:366-451 | a human's message with a changed link records the user and chat, then acts on the first changed link with its repost text |
| Bot.ActSendsFirst | fixupxer_bot.py:419-426 | acting on a link begins by sending the repost and sends nothing else |
| Bot.ActDeletes | fixupxer_bot.py:419-451 | the original is deleted exactly when the repost was sent and the conversion was recorded; the fallback reply is made exactly when sending, recording or deleting failed |
| Bot.ProcessSendsOnce | fixupxer_bot.py:358-451 | at most one `send_message` call is made, as the third call, and it is made exactly when the sender is not a bot and some link changes; the fallback `reply_text` of line 446 is a separate call, covered by `Bot.ProcessDeletesOriginal` |
| Bot.ProcessSendsRepost | fixupxer_bot.py:383-426 | the `send_message` call goes to the message's chat, with the repost of the first changed link: the sender's display name, the message, that match and its conversion |
| Bot.ProcessOwners | fixupxer_bot.py:421-429 | the map gains the entry from the sent repost to the poster exactly when a repost was sent, even when a later call fails; otherwise it is unchanged |
| Bot.ProcessDeletesOriginal | fixupxer_bot.py:358-451 | the user's message is deleted only after its repost was sent and recorded; the fallback reply is made exactly when a link was picked and one of those calls failed |
| Bot.DeleteIgnored | fixupxer_bot.py:305-308 | a `/delete` that does not reply to a bot's message makes no call and keeps the map |
| Bot.DeleteAuthorized | fixupxer_bot.py:315-326 | the replied-to message is deleted exactly when the member lookup succeeded and the requester is an administrator, the creator or its recorded poster |
| Bot.DeleteUntracked | fixupxer_bot.py:317-321 | a message missing from the map can be deleted only by an administrator or the creator |
| Bot.DeleteOwners | fixupxer_bot.py:315-356 | `/delete` never adds or alters an entry; it removes only the replied-to message's entry, and removes it exactly when that entry existed, the request was authorised and both deletions went through |
| Bot.DeleteRefused | fixupxer_bot.py:335-348 | a refused request deletes nothing and keeps the map, answers with the refusal, and when that answer was sent schedules deletion of the command message after 5 seconds |
| Bot.Transport.Track | fixupxer_bot.py:366-367 | `track_user` and `track_chat`: exactly one call is logged |
| Bot.Transport.TrackConversion | fixupxer_bot.py:432 | `track_conversion`: exactly one call is logged, and whether the row was written is arbitrary |
| Bot.Transport.DeleteMessage | fixupxer_bot.py:323-326 | `delete_message`: exactly one call is logged, and its outcome is arbitrary |
| Bot.Transport.ReplyText | fixupxer_bot.py:446-450 | `reply_text`: exactly one call is logged, with the chat, text and message replied to, and its outcome is arbitrary |
| Bot.Transport.GetChatMember | fixupxer_bot.py:317 | `get_chat_member`: exactly one call is logged; its outcome and the status it reports are arbitrary |
| Bot.Transport.DeleteLater | fixupxer_bot.py:342-348 | `job_queue.run_once` with a deleting job: exactly one call is logged, with the chat, message and delay |
| Bot.Transport.SendMessage | fixupxer_bot.py:421-426 | sending logs exactly one send call with the chat and text; the id returned is arbitrary or absent |
| Bot.FixupBot.ProcessMessage | fixupxer_bot.py:358-451 | the handler's calls and its new `user_message_map` are exactly those `Process` gives for the message, its `finditer` matches and `convert_to_fixupx` |
| Bot.FixupBot.RepostLink | fixupxer_bot.py:390-451 | the calls made and the map written after a link is picked are exactly those `Act` gives for the outcomes the transport returned |
| Bot.FixupBot.DeleteCommand | fixupxer_bot.py:303-356 | the handler's calls and its new `user_message_map` are exactly those `Delete` gives for the outcomes the transport returned |

## Left out

- Percent-encoding is not modelled. `parse_qs` normally decodes `%XX` and `+`, and `urlencode` re-quotes the result. In the model both are the identity, so a query that is already encoded differently (`%20` rather than `+`, say) is not re-encoded the way Python would do it.
- `urlsplit`'s removal of tab and newline characters, its check for unsafe characters and the `ValueError` it raises on a bad IPv6 netloc are not modelled. A link of the pattern contains no whitespace, and its netloc is `www.` plus one of four fixed hosts.
- `Text.Lower` lower-cases ASCII letters only. Python's `str.lower` covers all of Unicode, but it is only applied to netlocs, and every netloc the pattern accepts is ASCII.
- The `findall` call at line 371 is not modelled separately. It finds a match exactly when `finditer` does, so "no match" and "no changed match" lead to the same calls.
- Bot.Process: stated for any list of matches inside the message and any conversion function. The method instantiates it with `finditer`'s matches and `convert_to_fixupx`.
- The statistics database (`init_db`, `track_user`, `track_chat`, `track_conversion`) is left out. The model keeps only the fact that each is called and that `track_conversion` may fail. A failure of `track_user` or `track_chat` ends the handler with an exception, which is not modelled.
- The date and time read from the message are left out. They do not reach the text that is sent, because the attribution line holds a fixed phrase in their place.
- Logging is left out, as are `parse_mode` and `disable_web_page_preview`. They do not change which calls are made or what text they carry.
- A failure of the fallback reply at line 446, or of the `BadRequest` reply at line 351, is not modelled: it raises out of the handler, and the calls up to that point are the same.
- Bot.Transport.DeleteLater: always logs the scheduling. `job_queue.run_once` can raise (fixupxer_bot.py:342-348), for example when the application has no job queue. The handler then catches the error and only logs it (fixupxer_bot.py:355-356). This is the handler's last step, so no other call and no map entry depends on it. The model does not tell a failed scheduling from a successful one.
- The job queue's later firing of the scheduled deletion is left out. The model records only that the deletion was scheduled, for which message and after how long.
- Concurrency between handlers is left out. Each handler is modelled as running alone on the map.
- `start`, `help_command`, `stats_command`, `main` and `download_images.py` are not part of this model. They do not touch links or the message map.
- Normalize.CleanUrlIdempotent, Normalize.CleanUrlParts and Normalize.CleanUrlDropsTracking: stated for URLs in which `urlparse` finds a netloc, which includes every link of the pattern. URLs without a netloc are not covered.
- Normalize.ConvertPlain: stated for the netlocs a link of the pattern can have (`x.com` or `twitter.com`, with or without `www.`), not for every netloc that names neither mirror.
