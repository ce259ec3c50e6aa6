# TikTok userbot: the decision logic, in Dafny

`bot_tiktok_userbot.py` is a Telegram userbot. A private message that starts with a TikTok
link gets the video back as a file. Almost everything it does is delegated to
Telethon (messaging) and yt-dlp (downloading). This project models the parts
that decide something, and proves what they promise:

- **The link detector** (`UrlMatcher`). `TT_REGEX.search(text).group(0)` for the
  pattern `https?://(?:(?:www|vt|vm|m)\.)?tiktok\.com/[^\s]+` under
  `re.IGNORECASE`. It is written as a hand-made matcher:
  - scheme, then host, then the longest whitespace-free run;
  - tried at each position from the left.

  It is proved equal to a declarative reference, `MatchSpan`: the text
  between `i` and `j` splits into a scheme, a host and a non-empty path, each
  in any ASCII letter case, and cannot be extended.
  `UrlExamples` works two concrete messages through it.
- **The configuration** (`Config`):
  - `ONLY_PRIVATE`: strip, lower-case, then off only for `0`, `false` or `no`; the default is `"true"`.
  - The `ALLOWED_CHATS` allow-list: split on `,`, strip each item, drop blank items, lower-case the rest.
  - `os.getenv` is modelled over an environment map: the process environment once `load_dotenv` has filled it in.
- **The access filter** (`Access`):
  - `_chat_key`: a chat's `@username` (lower-cased), else its `id`, else the first of the peer's `user_id`, `chat_id` and `channel_id`.
  - `chat_is_allowed`: the private-only test, then the allow-list.
- **The handler skeleton** (`Handler`). `tiktok_handler` is a method that
  produces the sequence of user-visible actions and tracks whether a temporary
  file is present. The downloader, the size test and the upload are oracles
  passed in as parameters.
- **The Python string operations the above rely on** (`Text`):
  - `str.isspace` (the same class as `re`'s `\s`), ASCII `lower()`, `strip()`, `split(',')`;
  - `str(int)`, with a parser for the round trip.

## Model

| member | source | states |
|---|---|---|
| Text.IsSpace | bot_tiktok_userbot.py:16-23 | definition of `str.isspace()`, the class `strip()` removes at lines 16-17 and `\s` matches at line 23: `\t` to `\r`, `\x1c` to `\x1f`, space, `\x85`, `\xa0`, `\u1680`, `\u2000` to `\u200a`, `\u2028`, `\u2029`, `\u202f`, `\u205f` and `\u3000`; used by `Text.Strip` and `UrlMatcher.RunEnd` |
| Text.Lower | bot_tiktok_userbot.py:16-17 | definition of ASCII `lower()`, used at lines 16, 17, 63 and 80; its contract is in `Text.LowerIsLowercase` and `Text.LowerSlice` |
| Text.Strip | bot_tiktok_userbot.py:16-17 | `strip()` never lengthens its input. The result has no whitespace at either end, and it is empty exactly when the input is all whitespace |
| Text.StripPadded | bot_tiktok_userbot.py:16-17 | stripping removes exactly the surrounding whitespace: whitespace + `w` + whitespace strips to `w` when `w` is empty or has non-whitespace ends |
| Text.StripIdempotent | bot_tiktok_userbot.py:17 | stripping a stripped string changes nothing |
| Text.LowerIsLowercase | bot_tiktok_userbot.py:16-17 | `lower()` leaves no upper-case letter and is idempotent |
| Text.Split | bot_tiktok_userbot.py:17 | `split(',')` returns at least one part. No part contains the separator, and joining the parts with it gives the input back |
| Text.SplitJoin | bot_tiktok_userbot.py:17 | splitting a join of separator-free parts gives exactly those parts back |
| Text.IntToDecimal | bot_tiktok_userbot.py:65-71 | definition of `str(int)` for the identifiers; its contract is in `Text.IntToDecimalRoundTrip` and `Text.IntToDecimalShape` |
| Text.IntToDecimalRoundTrip | bot_tiktok_userbot.py:65-71 | `str(n)` of an identifier loses nothing: parsing it back gives `n` |
| Text.IntToDecimalShape | bot_tiktok_userbot.py:65-71 | a numeral is non-empty, has no upper-case letter and never starts with `@` |
| Text.NatToDecimalCanonical | bot_tiktok_userbot.py:65-71 | a numeral has no leading zero: it starts with `0` only for zero itself, so an `ALLOWED_CHATS` item such as `12345` is the one spelling that matches the identifier |
| UrlMatcher.SchemeEnd | bot_tiktok_userbot.py:23-23 | definition of the `https?://` step, trying `https` first; its contract is in `UrlMatcher.SchemeEndSpec` |
| UrlMatcher.HostEnd | bot_tiktok_userbot.py:23-23 | definition of the host step, trying the subdomains in pattern order; its contract is in `UrlMatcher.HostEndSound` and `UrlMatcher.HostEndComplete` |
| UrlMatcher.MatchAt | bot_tiktok_userbot.py:22-25 | definition of one match attempt at a position; its contract is in `UrlMatcher.MatchAtSound`, `UrlMatcher.MatchAtComplete` and `UrlMatcher.MatchAtNone` |
| UrlMatcher.SchemeEndSpec | bot_tiktok_userbot.py:23-23 | `https?://` ends at `j` exactly when the text up to `j` lower-cases to `http://` or `https://` |
| UrlMatcher.HostEndSound | bot_tiktok_userbot.py:23-23 | the host step ends only after an optional `www.`, `vt.`, `vm.` or `m.` followed by `tiktok.com/`, in any letter case |
| UrlMatcher.HostEndComplete | bot_tiktok_userbot.py:23-23 | every such host is recognised, and the step ends right after it |
| UrlMatcher.RunEnd | bot_tiktok_userbot.py:23-23 | `[^\s]+` is greedy: the run has no whitespace and is followed by whitespace or the end |
| UrlMatcher.SearchFrom | bot_tiktok_userbot.py:88-88 | `search` from `i` reports the first position at or after `i` where the pattern matches, and nothing when no position does |
| UrlMatcher.MatchAtSound | bot_tiktok_userbot.py:22-25 | every match the matcher reports is a greedy match of the pattern |
| UrlMatcher.MatchAtComplete | bot_tiktok_userbot.py:22-25 | every greedy match of the pattern is the one the matcher reports at its start |
| UrlMatcher.MatchAtNone | bot_tiktok_userbot.py:22-25 | where the matcher finds nothing, no match of the pattern starts |
| UrlMatcher.MatchSpanEndUnique | bot_tiktok_userbot.py:23-23 | a greedy match starting at a position can end in one place only |
| UrlMatcher.MatchStartsWithH | bot_tiktok_userbot.py:23-24 | every match starts with `h` or `H` |
| UrlMatcher.FindSpan | bot_tiktok_userbot.py:88-88 | definition of `TT_REGEX.search(m)` as a span; its contract is in `UrlMatcher.FindSpanSpec` and `UrlMatcher.FindSpanIs` |
| UrlMatcher.FindUrl | bot_tiktok_userbot.py:87-92 | definition of `match.group(0)`, or nothing; its contract is in `UrlMatcher.FindUrlShape`, `UrlMatcher.FindUrlLeftmostGreedy` and `UrlMatcher.FindUrlNone` |
| UrlMatcher.FindSpanSpec | bot_tiktok_userbot.py:87-92 | the reported span is a greedy match and no match starts further left. Nothing is reported exactly when the text holds no match |
| UrlMatcher.FindSpanIs | bot_tiktok_userbot.py:88-88 | conversely, a greedy match with no match further left is exactly what `search` reports |
| UrlMatcher.FindUrlShape | bot_tiktok_userbot.py:22-25 | the extracted link starts with `http://` or `https://`, in any case, and then has a listed host and at least one more character. It contains no whitespace |
| UrlMatcher.FindUrlLeftmostGreedy | bot_tiktok_userbot.py:87-92 | `group(0)` is the leftmost match, and it runs to the next whitespace character or to the end of the text |
| UrlMatcher.FindUrlNone | bot_tiktok_userbot.py:88-90 | nothing is extracted exactly when the text holds no match |
| UrlMatcher.FindUrlAfter | bot_tiktok_userbot.py:87-92 | a link preceded by text without `h`/`H` and followed by whitespace or the end is extracted whole |
| UrlMatcher.FindSpanIgnoresCase | bot_tiktok_userbot.py:24-24 | texts that agree once lower-cased give the same match span |
| UrlMatcher.FindUrlOfLower | bot_tiktok_userbot.py:24-24 | lower-casing the message lower-cases the extracted link and changes nothing else |
| UrlExamples.FindUrlInSentence | bot_tiktok_userbot.py:87-92 | in `see https://vt.tiktok.com/ZS1/ ok` the link `https://vt.tiktok.com/ZS1/` is found, stopping at the space |
| UrlExamples.FindUrlUpperCase | bot_tiktok_userbot.py:22-25 | `HTTP://M.TikTok.com/@a/video/1` is matched in full and keeps its letter case |
| Config.OnlyPrivateFlag | bot_tiktok_userbot.py:16-16 | definition of the `ONLY_PRIVATE` expression; its contract is in `Config.OnlyPrivateFlagFalseIff` and `Config.OnlyPrivateDefault` |
| Config.AllowedSet | bot_tiktok_userbot.py:17-17 | definition of the `ALLOWED` set comprehension; its contract is in `Config.AllowedSetEntries`, `Config.AllowedSetHasItem`, `Config.AllowedSetOfJoin` and `Config.AllowedSetEmptyIff` |
| Config.Load | bot_tiktok_userbot.py:16-17 | definition of both settings read through `os.getenv` with their defaults `"true"` and `""`; its contract is in `Config.OnlyPrivateDefault` and `Config.AllowedSetUnset` |
| Config.OnlyPrivateDefault | bot_tiktok_userbot.py:16-16 | an unset `ONLY_PRIVATE` means private-only mode |
| Config.OnlyPrivateFlagFalseIff | bot_tiktok_userbot.py:16-16 | `ONLY_PRIVATE` is off exactly when its value is `0`, `false` or `no`, in any case, with nothing but whitespace around it |
| Config.AllowedSetEntries | bot_tiktok_userbot.py:17-17 | every allow-list entry is non-empty, lower-case and has no surrounding whitespace |
| Config.AllowedSetHasItem | bot_tiktok_userbot.py:17-17 | each non-blank comma-separated item, stripped and lower-cased, is on the allow-list |
| Config.AllowedSetOfJoin | bot_tiktok_userbot.py:17-17 | writing clean entries as a comma-separated list and parsing it back gives exactly those entries |
| Config.AllowedSetEmptyIff | bot_tiktok_userbot.py:17-17 | the allow-list is empty exactly when the value holds only commas and whitespace |
| Config.AllowedSetUnset | bot_tiktok_userbot.py:17-17 | an unset `ALLOWED_CHATS` gives the empty allow-list |
| Access.ChatKey | bot_tiktok_userbot.py:61-72 | definition of `_chat_key`; its contract is in `Access.ChatKeyPriority`, `Access.ChatKeyIsLowercase` and `Access.ChatKeyIdentifies` |
| Access.ChatIsAllowed | bot_tiktok_userbot.py:74-80 | definition of `chat_is_allowed`; its contract is in `Access.PrivateOnlyDenial`, `Access.AllowListDecision`, `Access.AllowListMonotone` and `Access.EmptyAllowListMostPermissive` |
| Access.FirstId | bot_tiktok_userbot.py:65-71 | there is no numeric identifier exactly when the chat has no `id` and the peer has none of its three ids |
| Access.ChatKeyPriority | bot_tiktok_userbot.py:61-72 | a non-empty username gives `@` plus the lower-cased name. Otherwise the first present identifier gives its decimal numeral. With neither, there is no key |
| Access.ChatKeyIsLowercase | bot_tiktok_userbot.py:79-80 | every key is lower-case already, so the second `lower()` in `chat_is_allowed` changes nothing |
| Access.ChatKeyIdentifies | bot_tiktok_userbot.py:61-72 | username keys and numeric keys never collide. Equal username keys mean names equal up to case, and equal numeric keys mean equal identifiers |
| Access.PrivateOnlyDenial | bot_tiktok_userbot.py:75-76 | in private-only mode a non-private message is refused, whatever the allow-list holds |
| Access.AllowListDecision | bot_tiktok_userbot.py:77-80 | past the private test, an empty allow-list admits everyone. Otherwise a chat is admitted exactly when it has a key and that key is on the list |
| Access.UsernameCaseIgnored | bot_tiktok_userbot.py:62-63 | two chats whose usernames differ only in case get the same decision |
| Access.NumericEntriesIgnoredForUsernames | bot_tiktok_userbot.py:62-80 | a chat with a username is never admitted by a non-empty allow-list that has no `@` entry |
| Access.EmptyAllowListMostPermissive | bot_tiktok_userbot.py:77-80 | whatever a list admits, the empty list admits too |
| Access.AllowListMonotone | bot_tiktok_userbot.py:77-80 | adding entries to a non-empty allow-list never takes access away |
| Access.ConfiguredUsernameAdmitted | bot_tiktok_userbot.py:17-80 | an `ALLOWED_CHATS` item reading `@name`, in any case and spacing, admits private messages from that user |
| Handler.MessageText | bot_tiktok_userbot.py:87-87 | definition of `event.message.message or ""`; `Handler.HandleTikTok` searches this text |
| Handler.BlockTrace | bot_tiktok_userbot.py:99-127 | definition of the actions of the download block on each of its five paths; its contract is in `Handler.DownloadAndSend` and `Handler.HandleTikTok` |
| Handler.DownloadAndSend | bot_tiktok_userbot.py:99-127 | The temporary file is gone at the end of every path, and its removal is the last action. The video is sent exactly when the download, the size test and the upload all succeed. A raised download shows its error; a missing file shows the failure edit; an oversized file is deleted and not sent; a failed upload shows its error; on success the video is sent and then the progress reply is deleted. The actions are exactly `Handler.BlockTrace` of the oracles |
| Handler.HandleTikTok | bot_tiktok_userbot.py:83-127 | A refused chat or a message without a link causes no action. If `event.reply` raises, the handler stops there: no action, nothing downloaded or sent, no temporary file. Otherwise the actions are the progress reply quoting the extracted link followed by exactly the download block's trace, `Handler.BlockTrace`, so the last action is the removal of the temporary file. The video is sent exactly when the message is handled, the reply goes out and every step succeeds. The progress reply is deleted only on success, and no temporary file is left |

## Left out

- Telethon. Building the client, `start`, `run_until_disconnected`, `typing_action` and the `/start` greeting (bot_tiktok_userbot.py:51-59, 129-144) are network I/O through a library outside the model. `reply`, `edit`, `respond` and `delete` appear only as abstract actions.
- The `pattern=TT_REGEX` event filter (line 82). It is Telethon's own matching and is not modelled: the handler is modelled from the point where Telethon calls it. Telethon applies a compiled `pattern` with its `match` method, which is anchored at the start of the text: in the running bot the handler is called only for messages that begin with a link, and the `search` at line 88 then finds it at position 0. The model's handler searches the whole text, which is what lines 88-90 do once called.
- yt-dlp. `extract_info`, `prepare_filename` and `ydl_opts_for` (lines 30-41, 100-105) are a foreign library. Their effect is the `Download` oracle: the exception raised, if any, and whether a file is left.
- Handler.DownloadAndSend: the reassignment of `tmp_mp4` to yt-dlp's final name (lines 103-105) is collapsed into one "file at the path `tmp_mp4` names" flag. A file left behind at the first path when yt-dlp names another one is not modelled.
- Handler.DownloadAndSend: exceptions raised by `reply.edit`, `reply.delete` or `stat` are not modelled, nor is an `unlink` that fails. A failing `unlink` at line 114 would be caught at line 120 and its text edited into the reply; in the `finally` at lines 122-127 it is swallowed. Every removal succeeds.
- `human_mb`, `MAX_MB` and the size comparison (lines 19, 43-44, 111-112) use floating point. They are abstracted as the boolean `tooBig`.
- `TIKTOK_COOKIES`, `API_ID`, `API_HASH` and `SESSION_NAME` (lines 13-15, 18) feed only the two libraries.
- `load_dotenv` (line 11): the `env` map that `Config.Load` reads is the process environment after it has run. The parsing of the `.env` file (quoting, `export` lines, variables already set taking precedence) is not modelled.
- `peer_str` (lines 46-49) is a plain `str()` call that nothing else uses.
- The texts of the replies (lines 93, 108, 113, 117-118, 121) are abstracted; only the link quoted in the first reply and the exception text are kept.
- Text.Lower: folds ASCII letters only. Python's `lower()` and `re.IGNORECASE` also fold other letters (U+212A KELVIN SIGN matches `k`, for instance).
- Access.ChatKey: a chat entity whose `id` attribute is present but `None` (rendered `"None"`) is not modelled. The descriptor's identifiers are integers when present.
- The slideshow path, the media classifier, ten-image album batching and link normalisation have no code in `bot_tiktok_userbot.py`, so nothing models them.
