/**
  The mention-handling decision of the bot's stream listener (listener.py).

  A status arrives from the mention stream. The listener either ignores it or
  replies to it with a quote text that is sent to the image generator; the
  reply's caption is built from the generator's answer. Everything that talks
  to the network or the disk is outside this module: the replied-to status
  that the listener fetches is a parameter, and so is the generator's answer.
*/
module Listener {
  import opened Wrappers
  import opened PyStr

  type UserId = int
  type StatusId = int

  /** A pair of character offsets: a mention's `indices` or a `display_text_range`. */
  datatype Span = Span(start: int, end: int)

  /** One entry of a `user_mentions` list. */
  datatype Mention = Mention(id: UserId, screenName: string, indices: Span)

  /** The `extended_tweet` object of a long status delivered in compatibility mode. */
  datatype ExtendedTweet = ExtendedTweet(fullText: string, displayTextRange: Span, mentions: seq<Mention>)

  /**
    A status as the listener sees it. The attributes the listener probes for
    (`full_text`, `extended_tweet`, `display_text_range`, `retweeted_status`)
    are optional, and so is `text`, which a status fetched in extended mode
    lacks. `mentions` is `entities["user_mentions"]`.
  */
  datatype Status = Status(
    author: UserId,
    text: Option<string>,
    fullText: Option<string>,
    displayTextRange: Option<Span>,
    extendedTweet: Option<ExtendedTweet>,
    mentions: seq<Mention>,
    inReplyToStatusId: Option<StatusId>,
    isQuoteStatus: bool,
    isRetweet: bool)

  /** Why processing a status stopped with an exception (which `on_status` prints and swallows). */
  datatype Error =
    | MissingAttribute(name: string)  // AttributeError on a status
    | FetchFailed                     // `api.get_status` raised for the replied-to status

  /** What the listener does with one status. */
  datatype Outcome = Ignore | Reply(quote: string) | Crash(error: Error)

  // ---------------------------------------------------------------------------
  // Text extraction and the mention list

  /** The text with the mention at `m` cut out, together with the one character
      after the mention's end offset (the space that follows it). */
  function CutMention(t: string, m: Span): (r: string)
    // with offsets that are not inverted, the cut never makes the text longer
    ensures 0 <= m.start <= m.end + 1 ==> |r| <= |t|
  {
    Slice(t, 0, m.start) + Slice(t, m.end + 1, |t|)
  }

  /** For a mention that lies inside the text, possibly at its very end, the cut
      removes exactly the characters `m.start` through `m.end` (as far as the text
      reaches), and putting them back restores the text. */
  lemma CutMentionRestores(t: string, m: Span)
    requires 0 <= m.start <= m.end <= |t|
    ensures var e := if m.end < |t| then m.end + 1 else |t|; var r := CutMention(t, m);
      && r == t[..m.start] + t[e..]
      && |r| == |t| - (e - m.start)
      && r[..m.start] + t[m.start..e] + r[m.start..] == t
  {
  }

  /** With inverted offsets (`end + 1 < start`) inside the text the two slices
      overlap and the cut is longer than the text: "abcdef" cut at [4, 1] is "abcdcdef". */
  lemma CutMentionCanGrow(t: string, m: Span)
    requires 0 <= m.end + 1 < m.start <= |t|
    ensures |CutMention(t, m)| > |t|
  {
  }

  /**
    `_get_text`: the first of these that exists decides the text:
    `full_text` sliced by `display_text_range`; the extended tweet's `full_text`
    sliced by its own range; `text` sliced by `display_text_range`; `text` with
    the first bot mention cut out, when one is given; `text` as it is.
  */
  function GetText(s: Status, firstMention: Option<Span>): (r: Result<string, Error>)
    // it fails exactly when the field its chosen branch reads is missing
    ensures r.Failure? <==>
      || (s.fullText.Some? && s.displayTextRange.None?)
      || (s.fullText.None? && s.extendedTweet.None? && s.text.None?)
  {
    if s.fullText.Some? then
      match s.displayTextRange
      case None => Failure(MissingAttribute("display_text_range"))
      case Some(dtr) => Success(Slice(s.fullText.value, dtr.start, dtr.end))
    else if s.extendedTweet.Some? then
      var ext := s.extendedTweet.value;
      Success(Slice(ext.fullText, ext.displayTextRange.start, ext.displayTextRange.end))
    else if s.displayTextRange.Some? then
      match s.text
      case None => Failure(MissingAttribute("text"))
      case Some(t) => Success(Slice(t, s.displayTextRange.value.start, s.displayTextRange.value.end))
    else
      match s.text
      case None => Failure(MissingAttribute("text"))
      case Some(t) =>
        if firstMention.Some? then Success(CutMention(t, firstMention.value)) else Success(t)
  }

  /** The extracted text is never longer than the field it was taken from, and the
      field is chosen by the priority full_text, extended tweet, text. The bound for
      the mention cut holds for offsets that are not inverted. */
  lemma GetTextNoLonger(s: Status, firstMention: Option<Span>, t: string)
    requires GetText(s, firstMention) == Success(t)
    requires firstMention.Some? ==> 0 <= firstMention.value.start <= firstMention.value.end + 1
    ensures s.fullText.Some? ==> |t| <= |s.fullText.value|
    ensures s.fullText.None? && s.extendedTweet.Some? ==> |t| <= |s.extendedTweet.value.fullText|
    ensures s.fullText.None? && s.extendedTweet.None? ==> s.text.Some? && |t| <= |s.text.value|
  {
  }

  /** `sp` lies inside `t`. */
  predicate Within(sp: Span, t: string)
  {
    0 <= sp.start <= sp.end <= |t|
  }

  /** The characters of `t` from `sp.start` up to, not including, `sp.end`. */
  function Substring(t: string, sp: Span): string
    requires Within(sp, t)
  {
    t[sp.start..sp.end]
  }

  /** When the chosen display range lies inside its field, the text is exactly that
      substring (for example the range [10, 50] of an extended tweet's full text). */
  lemma GetTextDisplayRange(s: Status, firstMention: Option<Span>)
    ensures s.fullText.Some? && s.displayTextRange.Some? && Within(s.displayTextRange.value, s.fullText.value) ==>
      GetText(s, firstMention) == Success(Substring(s.fullText.value, s.displayTextRange.value))
    ensures s.fullText.None? && s.extendedTweet.Some? &&
            Within(s.extendedTweet.value.displayTextRange, s.extendedTweet.value.fullText) ==>
      GetText(s, firstMention) ==
        Success(Substring(s.extendedTweet.value.fullText, s.extendedTweet.value.displayTextRange))
    ensures s.fullText.None? && s.extendedTweet.None? && s.displayTextRange.Some? && s.text.Some? &&
            Within(s.displayTextRange.value, s.text.value) ==>
      GetText(s, firstMention) == Success(Substring(s.text.value, s.displayTextRange.value))
  {
  }

  /** The mention offsets are used only for a status that has none of `full_text`,
      `extended_tweet` and `display_text_range`; without offsets `text` comes back whole. */
  lemma GetTextMentionOnlyForPlainText(s: Status, firstMention: Option<Span>)
    ensures s.fullText.Some? || s.extendedTweet.Some? || s.displayTextRange.Some? ==>
      GetText(s, firstMention) == GetText(s, None)
    ensures s.fullText.None? && s.extendedTweet.None? && s.displayTextRange.None? && s.text.Some? ==>
      GetText(s, None) == Success(s.text.value)
  {
  }

  /** `_get_mentions`: the extended tweet's mention list when there is one, the top-level one otherwise. */
  function GetMentions(s: Status): seq<Mention>
  {
    if s.extendedTweet.Some? then s.extendedTweet.value.mentions else s.mentions
  }

  // ---------------------------------------------------------------------------
  // The mention scan

  /** Number of entries of `ms` that mention `me`. */
  function BotMentionCount(ms: seq<Mention>, me: UserId): (c: nat)
    ensures c <= |ms|
    ensures c == 0 <==> forall i :: 0 <= i < |ms| ==> ms[i].id != me
  {
    if ms == [] then 0
    else BotMentionCount(ms[..|ms| - 1], me) + (if ms[|ms| - 1].id == me then 1 else 0)
  }

  /** Offsets of the first entry of `ms` that mentions `me`, if any. */
  function FirstBotMention(ms: seq<Mention>, me: UserId): (f: Option<Span>)
    ensures f.None? <==> forall i :: 0 <= i < |ms| ==> ms[i].id != me
  {
    if ms == [] then None
    else
      var f := FirstBotMention(ms[..|ms| - 1], me);
      if f.Some? then f
      else if ms[|ms| - 1].id == me then Some(ms[|ms| - 1].indices)
      else None
  }

  /** The user ids a mention list refers to, in order. */
  function MentionIds(ms: seq<Mention>): seq<UserId>
  {
    seq(|ms|, i requires 0 <= i < |ms| => ms[i].id)
  }

  /** The count is the multiplicity of `me` among the mentioned ids. */
  lemma {:induction false} BotMentionCountIsMultiplicity(ms: seq<Mention>, me: UserId)
    ensures BotMentionCount(ms, me) == multiset(MentionIds(ms))[me]
  {
    if ms != [] {
      var init := ms[..|ms| - 1];
      BotMentionCountIsMultiplicity(init, me);
      assert MentionIds(ms) == MentionIds(init) + [ms[|ms| - 1].id];
    }
  }

  /** The first bot mention is the entry at the least index whose id is `me`. */
  lemma {:induction false} FirstBotMentionIsEarliest(ms: seq<Mention>, me: UserId, k: nat)
    requires k < |ms| && ms[k].id == me
    requires forall j :: 0 <= j < k ==> ms[j].id != me
    ensures FirstBotMention(ms, me) == Some(ms[k].indices)
  {
    var init := ms[..|ms| - 1];
    if k < |ms| - 1 {
      FirstBotMentionIsEarliest(init, me, k);
    } else {
      assert forall j :: 0 <= j < |init| ==> init[j].id != me;
    }
  }

  /**
    The loop at the heart of `_process_status`: walk the mention list once,
    counting the entries that mention the bot and keeping the offsets of the first.
  */
  method ScanMentions(ms: seq<Mention>, me: UserId) returns (count: nat, first: Option<Span>)
    ensures count == BotMentionCount(ms, me) && first == FirstBotMention(ms, me)
    ensures first.None? <==> count == 0
  {
    count, first := 0, None;
    for i := 0 to |ms|
      invariant count == BotMentionCount(ms[..i], me)
      invariant first == FirstBotMention(ms[..i], me)
    {
      assert ms[..i + 1][..i] == ms[..i];
      if ms[i].id == me {
        count := count + 1;
        if first.None? {
          first := Some(ms[i].indices);
        }
      }
    }
    assert ms[..|ms|] == ms;
  }

  // ---------------------------------------------------------------------------
  // The decision

  /** `status.in_reply_to_status_id` is truthy. */
  predicate IsReply(s: Status)
  {
    s.inReplyToStatusId.Some? && s.inReplyToStatusId.value != 0
  }

  /** Retweets, quote statuses and the bot's own statuses are never answered. */
  predicate Excluded(s: Status, me: UserId)
  {
    s.isRetweet || s.isQuoteStatus || s.author == me
  }

  /** `"@" + screen_name` for every mention, in order. */
  function Handles(ms: seq<Mention>): seq<string>
  {
    seq(|ms|, i requires 0 <= i < |ms| => "@" + ms[i].screenName)
  }

  /** The text, lowered, is the space-joined handles of all its mentions, lowered. */
  predicate IsPureMentionText(t: string, ms: seq<Mention>)
  {
    Lower(t) == Lower(Join(Handles(ms)))
  }

  /** A reply whose text is nothing but the mentions takes its quote from the replied-to status. */
  predicate QuotesRepliedStatus(s: Status, ms: seq<Mention>)
  {
    IsReply(s) && s.text.Some? && IsPureMentionText(s.text.value, ms)
  }

  function QuoteOutcome(r: Result<string, Error>): Outcome
  {
    match r
    case Success(t) => Reply(t)
    case Failure(e) => Crash(e)
  }

  /**
    The decision part of `_process_status` (everything before the image request).
    `replied` is what `api.get_status(status.in_reply_to_status_id)` returned;
    `None` stands for that call raising.
  */
  function Decide(s: Status, me: UserId, replied: Option<Status>): (o: Outcome)
    // only an eligible status gets as far as a quote or an exception
    ensures !o.Ignore? ==> !Excluded(s, me) && BotMentionCount(GetMentions(s), me) > 0
    // the fetch of the replied-to status fails only for an eligible reply
    ensures o == Crash(FetchFailed) <==>
      !Excluded(s, me) && BotMentionCount(GetMentions(s), me) > 0 && IsReply(s) && replied.None?
  {
    if Excluded(s, me) then Ignore
    else
      var ms := GetMentions(s);
      var count := BotMentionCount(ms, me);
      if count == 0 then Ignore
      else if IsReply(s) then
        match replied
        case None => Crash(FetchFailed)
        case Some(r) =>
          if r.author == me && count == 1 then Ignore
          else if BotMentionCount(GetMentions(r), me) > 0 && count == 1 then Ignore
          else
            match s.text
            case None => Crash(MissingAttribute("text"))
            case Some(t) =>
              if IsPureMentionText(t, ms) then QuoteOutcome(GetText(r, None))
              else QuoteOutcome(GetText(s, FirstBotMention(ms, me)))
      else QuoteOutcome(GetText(s, FirstBotMention(ms, me)))
  }

  /** The same decision as the source computes it: early returns, the mention loop,
      and `text` assigned from the replied-to status or from the status itself. */
  method ProcessStatus(s: Status, me: UserId, replied: Option<Status>) returns (o: Outcome)
    ensures o == Decide(s, me, replied)
  {
    if s.isRetweet || s.isQuoteStatus || s.author == me {
      return Ignore;
    }
    var mentions := GetMentions(s);
    var mentionCount, firstMentionIndices := ScanMentions(mentions, me);
    if mentionCount == 0 {
      return Ignore;
    }
    var text: Option<string> := None;
    if IsReply(s) {
      if replied.None? {
        return Crash(FetchFailed);
      }
      var r := replied.value;
      if r.author == me && mentionCount == 1 {
        return Ignore;
      }
      var repliedMentionCount, _ := ScanMentions(GetMentions(r), me);
      if repliedMentionCount > 0 && mentionCount == 1 {
        return Ignore;
      }
      if s.text.None? {
        return Crash(MissingAttribute("text"));
      }
      var rawMentionsText := Join(Handles(mentions));
      if Lower(s.text.value) == Lower(rawMentionsText) {
        var got := GetText(r, None);
        if got.Failure? {
          return Crash(got.error);
        }
        text := Some(got.value);
      }
    }
    if text.None? {
      var got := GetText(s, firstMentionIndices);
      if got.Failure? {
        return Crash(got.error);
      }
      text := Some(got.value);
    }
    o := Reply(text.value);
  }

  /** A retweet, a quote status or one of the bot's own statuses is ignored,
      whatever it mentions and whatever it replies to. */
  lemma ExcludedStatusIgnored(s: Status, me: UserId, replied: Option<Status>)
    requires Excluded(s, me)
    ensures Decide(s, me, replied) == Ignore
  {
  }

  /** A status that does not mention the bot is ignored. */
  lemma NoBotMentionIgnored(s: Status, me: UserId, replied: Option<Status>)
    requires forall i :: 0 <= i < |GetMentions(s)| ==> GetMentions(s)[i].id != me
    ensures Decide(s, me, replied) == Ignore
  {
  }

  /**
    The complete list of reasons to ignore a status: excluded, no bot mention,
    or a reply with a single bot mention to a status that the bot wrote or that
    already mentions the bot. Nothing else is ignored.
  */
  lemma IgnoredExactly(s: Status, me: UserId, replied: Option<Status>)
    ensures Decide(s, me, replied) == Ignore <==>
      || Excluded(s, me)
      || BotMentionCount(GetMentions(s), me) == 0
      || (IsReply(s) && replied.Some? && BotMentionCount(GetMentions(s), me) == 1 &&
          (replied.value.author == me || BotMentionCount(GetMentions(replied.value), me) > 0))
  {
  }

  /** With two or more bot mentions a reply is not ignored, whoever wrote the
      replied-to status and whatever it mentions. */
  lemma SeveralMentionsNeverDeduplicated(s: Status, me: UserId, r: Status)
    requires !Excluded(s, me) && IsReply(s)
    requires BotMentionCount(GetMentions(s), me) >= 2
    ensures Decide(s, me, Some(r)) != Ignore
  {
  }

  /** The replied-to status is consulted only for replies: for any other status the
      outcome is the same whatever the fetch would have produced. */
  lemma RepliedStatusOnlyForReplies(s: Status, me: UserId, x: Option<Status>, y: Option<Status>)
    requires !IsReply(s)
    ensures Decide(s, me, x) == Decide(s, me, y)
  {
  }

  /** The mention list that is not selected plays no part: when a status has an
      extended tweet, its top-level `user_mentions` can be anything. */
  lemma DecideIgnoresShadowedMentions(s: Status, me: UserId, replied: Option<Status>, other: seq<Mention>)
    requires s.extendedTweet.Some?
    ensures Decide(s.(mentions := other), me, replied) == Decide(s, me, replied)
  {
  }

  /**
    Where a reply's quote text comes from: from the replied-to status (without
    mention offsets) when the reply's text is only its mentions, otherwise from
    the status itself with its first bot mention's offsets.
  */
  lemma QuoteSource(s: Status, me: UserId, replied: Option<Status>, q: string)
    requires Decide(s, me, replied) == Reply(q)
    ensures !Excluded(s, me) && BotMentionCount(GetMentions(s), me) > 0
    ensures QuotesRepliedStatus(s, GetMentions(s)) ==>
      replied.Some? && GetText(replied.value, None) == Success(q)
    ensures !QuotesRepliedStatus(s, GetMentions(s)) ==>
      GetText(s, FirstBotMention(GetMentions(s), me)) == Success(q)
  {
  }

  /**
    The converse of `QuoteSource`: an eligible status that passes the reply-chain
    checks crashes on a reply without `text` (the lowered comparison reads it);
    otherwise it is answered with the text its chosen source yields, or crashes
    exactly when that extraction fails.
  */
  lemma EligibleStatusAnswered(s: Status, me: UserId, replied: Option<Status>)
    requires !Excluded(s, me) && BotMentionCount(GetMentions(s), me) > 0
    requires IsReply(s) ==> replied.Some?
    requires IsReply(s) && BotMentionCount(GetMentions(s), me) == 1 ==>
      replied.value.author != me && BotMentionCount(GetMentions(replied.value), me) == 0
    ensures Decide(s, me, replied) ==
      if IsReply(s) && s.text.None? then Crash(MissingAttribute("text"))
      else QuoteOutcome(
        if QuotesRepliedStatus(s, GetMentions(s)) then GetText(replied.value, None)
        else GetText(s, FirstBotMention(GetMentions(s), me)))
  {
  }

  /**
    End to end for the common case: a plain-text status that is not a reply and
    mentions the bot first at offsets [a, b) is answered with its text minus the
    characters a through b (the mention and the space after it), or minus
    everything from a on when the mention ends the text.
  */
  lemma PlainMentionQuote(s: Status, me: UserId, replied: Option<Status>, k: nat)
    requires !Excluded(s, me) && !IsReply(s)
    requires s.fullText.None? && s.extendedTweet.None? && s.displayTextRange.None? && s.text.Some?
    requires k < |s.mentions| && s.mentions[k].id == me
    requires forall j :: 0 <= j < k ==> s.mentions[j].id != me
    requires 0 <= s.mentions[k].indices.start <= s.mentions[k].indices.end <= |s.text.value|
    ensures var t, m := s.text.value, s.mentions[k].indices;
      var e := if m.end < |t| then m.end + 1 else |t|;
      Decide(s, me, replied) == Reply(t[..m.start] + t[e..]) &&
      |t[..m.start] + t[e..]| == |t| - (e - m.start)
  {
    FirstBotMentionIsEarliest(s.mentions, me, k);
    CutMentionRestores(s.text.value, s.mentions[k].indices);
  }

  // ---------------------------------------------------------------------------
  // The reply caption

  const CaptionTag: string := ") #anime"

  /** The caption of the bot's reply: `"{character} ({anime}) #anime"`. */
  function Caption(character: string, anime: string): (c: string)
    ensures |c| == |character| + |anime| + 10
    ensures c[..|character|] == character && c[|character|..|character| + 2] == " ("
    ensures c[|character| + 2..|character| + 2 + |anime|] == anime && c[|c| - 8..] == ") #anime"
  {
    character + " (" + anime + CaptionTag
  }

  /** Reads a caption back into its character and anime names: the character is
      everything before the first " (", the anime everything up to the final tag. */
  function ParseCaption(c: string): Option<(string, string)>
  {
    if |c| < |CaptionTag| || c[|c| - |CaptionTag|..] != CaptionTag then None
    else
      var head := c[..|c| - |CaptionTag|];
      var k := FirstIndexOf(head, '(');
      if k == |head| || k == 0 || head[k - 1] != ' ' then None
      else Some((head[..k - 1], head[k + 1..]))
  }

  /** A caption is read back as the names it was built from, provided the
      character's name has no opening parenthesis. */
  lemma CaptionRoundTrip(character: string, anime: string)
    requires '(' !in character
    ensures ParseCaption(Caption(character, anime)) == Some((character, anime))
  {
    var c := Caption(character, anime);
    var head := character + " (" + anime;
    assert c == head + CaptionTag;
    assert c[..|c| - |CaptionTag|] == head;
    assert c[|c| - |CaptionTag|..] == CaptionTag;
    var n := |character|;
    assert head[n] == ' ' && head[n + 1] == '(';
    assert forall j :: 0 <= j < n ==> head[j] == character[j];
    assert FirstIndexOf(head, '(') == n + 1;
    assert head[..n] == character;
    assert head[n + 2..] == anime;
  }

  /** Whatever `ParseCaption` accepts is a caption of the names it returns. */
  lemma ParseCaptionSound(c: string, character: string, anime: string)
    requires ParseCaption(c) == Some((character, anime))
    ensures Caption(character, anime) == c
  {
  }

  /** What the image generator answered for the quote text; its two headers name
      the character and the anime shown. */
  datatype ImageResponse = ImageResponse(statusCode: int, character: string, anime: string)

  /** The caption the bot posts, if it posts at all: only for a status it decided
      to answer, and only when the generator answered with status 200. */
  function ReplyCaption(o: Outcome, response: ImageResponse): (c: Option<string>)
    ensures c.Some? <==> o.Reply? && response.statusCode == 200
    ensures c.Some? ==> c.value == Caption(response.character, response.anime)
    ensures c.Some? && '(' !in response.character ==>
      ParseCaption(c.value) == Some((response.character, response.anime))
  {
    if o.Reply? && response.statusCode == 200 then
      var c := Caption(response.character, response.anime);
      assert '(' !in response.character ==> ParseCaption(c) == Some((response.character, response.anime)) by {
        if '(' !in response.character {
          CaptionRoundTrip(response.character, response.anime);
        }
      }
      Some(c)
    else None
  }
}
