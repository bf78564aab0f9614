# Mention handling of the anime-quote reply bot

The bot listens to a stream of statuses that mention it. For each status its
listener decides whether to answer and, if so, which quote text to send to an
image generator. The generated image is then posted as a reply whose caption
names the character and the anime. This project models that decision
(`StreamListener._process_status` up to the image request, with `_get_text` and
`_get_mentions`) and the caption. It proves what the decision guarantees.

- `wrappers.dfy`: `Option` and `Result`.
- `py_str.dfy` (module `PyStr`): the Python string operations the listener
  uses. These are slicing `s[a:b]` (negative bounds count from the end, bounds
  clamp, it never fails), `lower()` (ASCII only) and `" ".join(...)`. The
  listener never splits; `Split` (Python's `split(" ")`) is a reference
  inverse of the join, added to show that the joined handle string
  determines the handles.
- `listener.dfy` (module `Listener`):
  - The data model: `Status`, `Mention`, `ExtendedTweet` and `Span`.
  - `GetText`, `GetMentions` and the mention scan. The scan is the method
    `ScanMentions`, with a loop proved against `BotMentionCount` and
    `FirstBotMention`.
  - The decision `Decide`, and the method `ProcessStatus`. `ProcessStatus`
    follows the source's early-return shape and is proved equal to `Decide`.
  - The caption, with a parser that reads it back, and `ReplyCaption`, which
    gates the caption on the generator's answer.

Choices made in the model:

- A status attribute that the code probes with `hasattr` is an `Option` field:
  `full_text`, `extended_tweet`, `display_text_range`, and `retweeted_status`
  (as the flag `isRetweet`). `text` is an `Option` too, because a status fetched
  in extended mode has no `text`. The source can read a missing attribute.
  That raises `AttributeError`, which `on_status` prints and swallows. The model
  gives the outcome `Crash(MissingAttribute(..))` for it.
- The replied-to status is the parameter `replied`. `None` means that
  `api.get_status` raised, and the outcome is `Crash(FetchFailed)`.
- `status.author == self.me` compares user ids. `in_reply_to_status_id` counts
  as a reply when it is present and non-zero, which is Python truthiness.
- `_get_text` (listener.py:49-66) has five branches, one of which cuts the
  first bot mention out of `text`.

## Model

| member | source | states |
|---|---|---|
| `PyStr.Slice` | listener.py:50-59 | `s[a:b]` never fails and is no longer than `s`. Within bounds it is exactly `s[a..b]`. Otherwise it is the piece of `s` at the normalised start whose length is the distance between the clamped bounds (zero when they do not enclose a character). |
| `PyStr.Lower` | listener.py:108 | Lowering keeps the length and lowers each character in place. |
| `PyStr.Join` | listener.py:107 | `" ".join(parts)` is empty for no parts. Otherwise its length is the parts' total length plus one separator between each pair of parts. |
| `PyStr.SplitJoin` | listener.py:107 | Reference inverse of the join (the listener itself never splits): splitting on spaces gives back the joined parts, provided no part contains a space (as with screen names). |
| `PyStr.JoinSplit` | listener.py:107 | Reference inverse of the join: joining the pieces of `split(" ")` with spaces gives back any string. |
| `Listener.CutMention` | listener.py:60-62 | `text[:start] + text[end + 1:]`; when the offsets are not inverted it is never longer than the text. |
| `Listener.CutMentionRestores` | listener.py:60-62 | For a mention inside the text, including one that ends the text, the cut is `t[..start] + t[e..]` with `e` one past the mention's end, clamped to the text. It removes exactly `e - start` characters, and reinserting them restores the text. |
| `Listener.CutMentionCanGrow` | listener.py:60-62 | Inverted offsets with `0 <= end + 1 < start` and `start` at most the text's length make the two slices overlap, so the cut is longer than the text (for example "abcdef" cut at [4, 1] is "abcdcdef"). |
| `Listener.GetText` | listener.py:49-66 | `_get_text` fails exactly when its chosen branch reads a missing attribute. That is `full_text` without `display_text_range`, or no `full_text`, no `extended_tweet` and no `text`. |
| `Listener.GetTextNoLonger` | listener.py:49-66 | The extracted text is no longer than the field it came from. The field is chosen in priority order: `full_text`, then the extended tweet's `full_text`, then `text`. |
| `Listener.GetTextDisplayRange` | listener.py:50-59 | In each of the three display-range branches, a range inside its field gives exactly that substring. For example, the range [10, 50] of an extended tweet gives characters 10 to 49. |
| `Listener.GetTextMentionOnlyForPlainText` | listener.py:57-64 | The mention offsets affect the result only when `full_text`, `extended_tweet` and `display_text_range` are all absent. Without offsets, `text` is returned whole. |
| `Listener.GetMentions` | listener.py:68-74 | `_get_mentions`: the extended tweet's `user_mentions` when an extended tweet is present, the top-level `user_mentions` otherwise; its effect on the decision is stated by `DecideIgnoresShadowedMentions`. |
| `Listener.DecideIgnoresShadowedMentions` | listener.py:68-74 | When an extended tweet is present, the decision uses its mention list. The top-level `user_mentions` can be anything and the outcome does not change. |
| `Listener.BotMentionCount` | listener.py:84-88 | The count is at most the list's length. It is zero exactly when no entry has the bot's id. |
| `Listener.FirstBotMention` | listener.py:85-91 | There are no first-mention offsets exactly when no entry has the bot's id. |
| `Listener.BotMentionCountIsMultiplicity` | listener.py:86-88 | The count equals the multiplicity of the bot's id in the multiset of mentioned ids. |
| `Listener.FirstBotMentionIsEarliest` | listener.py:90-91 | The recorded offsets are those of the entry at the least index that has the bot's id. |
| `Listener.ScanMentions` | listener.py:83-91 | The loop's count and first offsets equal `BotMentionCount` and `FirstBotMention`. The offsets are absent exactly when the count is 0. |
| `Listener.Excluded` | listener.py:77 | A status is excluded when it has a `retweeted_status`, is a quote status, or was written by the bot; consequences in `ExcludedStatusIgnored` and `IgnoredExactly`. |
| `Listener.IsReply` | listener.py:97 | `in_reply_to_status_id` is truthy: present and non-zero; consequences in `RepliedStatusOnlyForReplies`. |
| `Listener.IsPureMentionText` | listener.py:107-108 | The lowered text equals the lowered space-join of `"@" + screen_name` over all mentions; consequences in `QuoteSource` and `EligibleStatusAnswered`. |
| `Listener.Decide` | listener.py:76-112 | Only a status that is not excluded and mentions the bot gets a quote or an exception. The fetch failure appears exactly for such a status that is a reply whose replied-to status could not be fetched. |
| `Listener.ProcessStatus` | listener.py:76-112 | The source's early-return sequence, with the mention loop and the assignments to `text`, has the outcome `Decide` gives on every input. |
| `Listener.ExcludedStatusIgnored` | listener.py:77-78 | A retweet, a quote status or the bot's own status is ignored, whatever it mentions or replies to. |
| `Listener.NoBotMentionIgnored` | listener.py:93-94 | A status whose selected mention list has no bot mention is ignored. |
| `Listener.IgnoredExactly` | listener.py:77-105 | A status is ignored if and only if it is excluded, or has no bot mention, or is a reply with exactly one bot mention to a status the bot wrote or that mentions the bot. |
| `Listener.SeveralMentionsNeverDeduplicated` | listener.py:99-105 | A reply with two or more bot mentions is never ignored by the reply-chain checks. |
| `Listener.RepliedStatusOnlyForReplies` | listener.py:97-98 | For a status that is not a reply, the outcome does not depend on the replied-to status. |
| `Listener.QuoteSource` | listener.py:107-112 | A quote is produced only for an eligible status. When the reply's lowered text equals its lowered space-joined handles, the quote is the replied-to status's text, taken without offsets. Otherwise it is `_get_text` of the status itself, given its first bot mention's offsets. The offsets cut the text only in the plain-`text` branch. |
| `Listener.EligibleStatusAnswered` | listener.py:93-112 | Conversely, an eligible status that passes the reply-chain checks (and, for a reply, has a fetched replied-to status) crashes with the missing `text` attribute when it is a reply without `text`; otherwise it gets a reply with the text its chosen source yields, or crashes exactly when that extraction fails. |
| `Listener.PlainMentionQuote` | listener.py:83-112 | Take a non-reply, plain-text status whose first bot mention lies inside its text, possibly at its end. It is answered with its text minus the mention and the character after it (when there is one). |
| `Listener.Caption` | listener.py:134 | The caption is the character's name, then " (", then the anime's name, then ") #anime", and nothing else (its length is the two names' plus 10). |
| `Listener.CaptionRoundTrip` | listener.py:134 | `"{character} ({anime}) #anime"` reads back as the two names, provided the character's name has no `(`. |
| `Listener.ParseCaptionSound` | listener.py:134 | Any string the caption reader accepts is the caption of the names it returns. |
| `Listener.ReplyCaption` | listener.py:115-134 | A caption is posted exactly when the decision is to reply and the generator answered 200. The posted caption is `Caption` of the character and anime the generator named, and reads back as them when the character's name has no `(`. |

## Left out

- The HTTP request to the generator is out: the streamed body, the non-200 log line with the JSON `description`, and the `tmp/<uuid>.png` file (listener.py:115-129). These are network and file I/O. The generator's answer is the input `ImageResponse`, and only "non-200 means no reply" is modelled.
- `api.me`, `api.get_status`, `media_upload` and `update_status` (listener.py:29, 98, 131-138) are calls into tweepy. The bot's id and the fetched status are parameters. Uploading and posting are not modelled.
- Creating `tmp/` and removing the image (listener.py:11-12, 145) are filesystem side effects and are not modelled.
- Logging and timing (listener.py:31-41, 80-81, 139-142) carry no behaviour.
- The module-level HTTP session and the environment variables (listener.py:14-22) are configuration. `main.py` only wires the stream and is not part of this model.
- The `try`/`except` in `on_status` (listener.py:43-47) only appears as the `Crash` outcome. Printing the traceback is not modelled.
- `PyStr.Lower`: lowercases only ASCII `A`-`Z`. Python's `str.lower()` also lowers other Unicode letters, so two texts that differ in non-ASCII case compare unequal here.
- `Listener.GetTextNoLonger`: the bound in the mention-cut branch is proved only for offsets with `0 <= start <= end + 1`. Inverted offsets make the cut longer than the text (`CutMentionCanGrow`). Real mention offsets are never inverted.
- `Listener.CaptionRoundTrip`: assumes the character's name contains no `(`. Otherwise the caption alone does not say where the character's name ends.
- Dictionary keys the code reads without checking are always present in the model, so the `KeyError` cases are not modelled. These are `extended_tweet["entities"]["user_mentions"]`, `extended_tweet["full_text"]`, `display_text_range`, and a mention's `id`, `indices` and `screen_name`. A `display_text_range` or `indices` value is a pair.
