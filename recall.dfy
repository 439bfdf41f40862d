/** The recall plugin (BotMessageManager): a user replies to one of the
    bot's messages with the prefix and "撤回", and the bot deletes that
    message if the user may have it deleted. Only the decision is modelled;
    the platform's answers (fetching a message, deleting it) are inputs. */
module Recall {
  import opened Wrappers
  import opened Strings

  /** The command word after the prefix. */
  const Keyword := "撤回"

  /** One message segment: a reply to a message (its id, when the segment
      carries one), a piece of text, a mention (its `qq` field, "" when
      missing), or anything else. */
  datatype Segment = ReplyTo(id: Option<string>) | Text(text: string) | At(qq: string) | Other

  /** A message body: a plain string or a list of segments. */
  datatype Content = Plain(s: string) | Segments(segments: seq<Segment>)

  /** A fetched message's data: its `message` attribute, its
      `raw_message`, its `time` (None when absent or not convertible to an
      integer) and its sender's id (None when absent). */
  datatype MessageData = MessageData(message: Option<Content>, raw: Option<string>,
                                     time: Option<int>, userId: Option<string>)

  // -----------------------------------------------------------------------
  // CQ codes in raw text

  /** The digits captured by `<tag>(\d+)\]` matched at index `i`, if it
      matches there. `\d+` is greedy and cannot take the ']', so a match is
      the longest digit run after the tag followed by ']'. */
  function CodeAt(s: string, i: nat, tag: string): (r: Option<string>)
    requires i <= |s|
    ensures r.Some? ==> IsDigits(r.value) && OccursAt(s, tag + r.value + "]", i)
  {
    if !OccursAt(s, tag, i) then None
    else
      var j := DigitEnd(s, i + |tag|);
      if j == i + |tag| || j == |s| || s[j] != ']' then None
      else
        assert s[i..j + 1] == tag + s[i + |tag|..j] + "]";
        Some(s[i + |tag|..j])
  }

  /** `re.search`: the capture of the leftmost match at or after `i`. */
  function FirstCode(s: string, tag: string, i: nat): (r: Option<string>)
    requires i <= |s|
    ensures r.Some? ==> IsDigits(r.value) && exists k :: i <= k <= |s| && CodeAt(s, k, tag) == r
    ensures r.None? ==> forall k :: i <= k <= |s| ==> CodeAt(s, k, tag).None?
    decreases |s| - i
  {
    if CodeAt(s, i, tag).Some? then CodeAt(s, i, tag)
    else if i == |s| then None
    else FirstCode(s, tag, i + 1)
  }

  /** The converse of `CodeAt`'s contract: the tag, a digit string and
      ']' at `i` are a match there, capturing those digits. */
  lemma CodeAtFinds(s: string, i: nat, tag: string, d: string)
    requires IsDigits(d) && OccursAt(s, tag + d + "]", i)
    ensures CodeAt(s, i, tag) == Some(d)
  {
    var a, p := i + |tag|, i + |tag| + |d|;
    var pat := tag + d + "]";
    assert s[i..a] == pat[..|tag|] == tag;
    forall k | a <= k < p ensures s[k] == d[k - a] {
      assert s[k] == pat[k - i];
    }
    assert s[p] == pat[|tag| + |d|] == ']';
    var j := DigitEnd(s, a);
    assert j == p;
    assert s[a..j] == d;
  }

  /** `re.search` returns the leftmost match: no position before the one
      whose capture `FirstCode` returns matches. */
  lemma {:induction false} FirstCodeLeftmost(s: string, tag: string, i: nat)
    requires i <= |s|
    ensures FirstCode(s, tag, i).Some? ==>
              exists k :: i <= k <= |s| && CodeAt(s, k, tag) == FirstCode(s, tag, i)
                          && forall m :: i <= m < k ==> CodeAt(s, m, tag).None?
    decreases |s| - i
  {
    if CodeAt(s, i, tag).Some? {
      assert CodeAt(s, i, tag) == FirstCode(s, tag, i);
    } else if i < |s| {
      FirstCodeLeftmost(s, tag, i + 1);
      if FirstCode(s, tag, i + 1).Some? {
        var k :| i + 1 <= k <= |s| && CodeAt(s, k, tag) == FirstCode(s, tag, i + 1)
                 && forall m :: i + 1 <= m < k ==> CodeAt(s, m, tag).None?;
        assert forall m :: i <= m < k ==> CodeAt(s, m, tag).None?;
      }
    }
  }

  /** `re.findall`: the captures of all matches at or after `i`, left to
      right. Matches cannot overlap: each starts with the tag's '[', which
      the digits of an earlier match cannot contain. */
  function AllCodes(s: string, tag: string, i: nat): (r: seq<string>)
    requires i <= |s|
    ensures forall v :: v in r <==> exists k :: i <= k <= |s| && CodeAt(s, k, tag) == Some(v)
    decreases |s| - i
  {
    var here := CodeAt(s, i, tag);
    var rest := if i == |s| then [] else AllCodes(s, tag, i + 1);
    assert forall v :: v in rest <==> exists k :: i + 1 <= k <= |s| && CodeAt(s, k, tag) == Some(v);
    if here.Some? then [here.value] + rest else rest
  }

  const ReplyTag := "[CQ:reply,id="
  const AtTag := "[CQ:at,qq="

  // -----------------------------------------------------------------------
  // get_replied_message_id

  /** The id of the first reply segment, found or not: `Some(id)` when a
      reply segment exists, whatever its id. */
  function FirstReply(segments: seq<Segment>): (r: Option<Option<string>>)
    ensures r.Some? <==> exists k :: 0 <= k < |segments| && segments[k].ReplyTo?
    ensures r.Some? ==> exists k :: 0 <= k < |segments| && segments[k] == ReplyTo(r.value)
                                     && forall m :: 0 <= m < k ==> !segments[m].ReplyTo?
  {
    if segments == [] then None
    else if segments[0].ReplyTo? then Some(segments[0].id)
    else
      var r := FirstReply(segments[1..]);
      assert forall k :: 0 < k < |segments| ==> segments[k] == segments[1..][k - 1];
      r
  }

  /** `get_replied_message_id`: the first reply segment's id (even a
      missing one ends the search); failing that the id in the first
      `[CQ:reply,id=N]` of the raw text; otherwise nothing. */
  function RepliedId(md: MessageData): Option<string> {
    var fromSegments := if md.message.Some? && md.message.value.Segments? then FirstReply(md.message.value.segments)
                        else None;
    if fromSegments.Some? then fromSegments.value
    else if md.raw.Some? then FirstCode(md.raw.value, ReplyTag, 0)
    else None
  }

  /** The loop over the segments, then the search of the raw text. */
  method GetRepliedId(md: MessageData) returns (id: Option<string>)
    ensures id == RepliedId(md)
  {
    if md.message.Some? && md.message.value.Segments? {
      var segments := md.message.value.segments;
      var i := 0;
      while i < |segments|
        invariant i <= |segments|
        invariant FirstReply(segments) == FirstReply(segments[i..])
      {
        assert segments[i..][1..] == segments[i + 1..];
        if segments[i].ReplyTo? {
          return segments[i].id;
        }
        i := i + 1;
      }
    }
    if md.raw.Some? {
      id := FirstCode(md.raw.value, ReplyTag, 0);
      return;
    }
    id := None;
  }

  /** Without a reply segment, the id is the capture of the first
      `[CQ:reply,id=N]` in the raw text, and there is none exactly when the
      raw text holds no such code. */
  lemma RawReplyLeftmost(md: MessageData)
    requires md.raw.Some?
    requires md.message.Some? && md.message.value.Segments? ==>
               forall k :: 0 <= k < |md.message.value.segments| ==> !md.message.value.segments[k].ReplyTo?
    ensures var raw := md.raw.value;
            RepliedId(md).None? <==> forall k :: 0 <= k <= |raw| ==> CodeAt(raw, k, ReplyTag).None?
    ensures var raw := md.raw.value;
            RepliedId(md).Some? ==>
              exists k :: 0 <= k <= |raw| && CodeAt(raw, k, ReplyTag) == RepliedId(md)
                          && forall m :: 0 <= m < k ==> CodeAt(raw, m, ReplyTag).None?
  {
    FirstCodeLeftmost(md.raw.value, ReplyTag, 0);
  }

  /** A reply segment wins over the raw text, even when it has no id. */
  lemma ReplySegmentFirst(segments: seq<Segment>, raw: string, time: Option<int>, user: Option<string>)
    requires segments != [] && segments[0] == ReplyTo(None)
    ensures RepliedId(MessageData(Some(Segments(segments)), Some(raw), time, user)) == None
  {
  }

  /** Without reply segments the raw text's first code is used. */
  lemma RawCodeExample()
    ensures RepliedId(MessageData(None, Some("[CQ:reply,id=42]"), None, None)) == Some("42")
  {
    var s := "[CQ:reply,id=42]";
    assert s[..|ReplyTag|] == ReplyTag;
    assert OccursAt(s, ReplyTag, 0);
    assert DigitEnd(s, 13) == 15 by {
      assert IsAsciiDigit(s[13]) && IsAsciiDigit(s[14]) && !IsAsciiDigit(s[15]);
    }
    assert s[13..15] == "42";
    assert CodeAt(s, 0, ReplyTag) == Some("42");
  }

  // -----------------------------------------------------------------------
  // is_message_too_old

  /** `is_message_too_old`: no usable time means not too old; otherwise the
      age in minutes, by true division, must exceed the limit. */
  function TooOld(md: MessageData, now: int, maxMinutes: nat): bool {
    match md.time
    case None => false
    case Some(t) => (now - t) as real / 60.0 > maxMinutes as real
  }

  /** On integers the test is an exact comparison of seconds. */
  lemma TooOldInSeconds(md: MessageData, now: int, maxMinutes: nat)
    ensures TooOld(md, now, maxMinutes) <==> md.time.Some? && now - md.time.value > 60 * maxMinutes
  {
    if md.time.Some? {
      var d := (now - md.time.value) as real;
      assert d / 60.0 > maxMinutes as real <==> d > 60.0 * maxMinutes as real;
    }
  }

  // -----------------------------------------------------------------------
  // extract_qq_from_message_content

  /** The strings `extracted_qqs` collects. `runs` stands for the
      digit-run search `\b([1-9]\d{4,10})\b`. */
  function Gathered(content: Content, runs: string -> seq<string>): set<string> {
    match content
    case Plain(s) => (set q | q in runs(s)) + (set q | q in AllCodes(s, AtTag, 0))
    case Segments(segments) => SegmentsGathered(segments, runs)
  }

  /** What the loop over segments adds: the runs of each text segment and
      each non-empty mention. */
  function SegmentsGathered(segments: seq<Segment>, runs: string -> seq<string>): set<string> {
    set k, q | 0 <= k < |segments| && q in SegmentFinds(segments[k], runs) :: q
  }

  function SegmentFinds(seg: Segment, runs: string -> seq<string>): set<string> {
    match seg
    case Text(t) => set q | q in runs(t)
    case At(qq) => if qq != [] then {qq} else {}
    case _ => {}
  }

  /** A kept candidate: not empty, not the bot, not "0", at least five
      characters. */
  predicate Kept(q: string, robot: string) {
    q != [] && q != robot && q != "0" && |q| >= 5
  }

  /** `extract_qq_from_message_content`: collect, then filter; the order of
      the result follows the iteration of a set and is not specified. */
  method ExtractCandidates(content: Content, robot: string, runs: string -> seq<string>) returns (qqs: seq<string>)
    ensures forall q :: q in qqs <==> q in Gathered(content, runs) && Kept(q, robot)
    ensures forall i, j :: 0 <= i < j < |qqs| ==> qqs[i] != qqs[j]
  {
    var found: set<string> := {};
    match content {
      case Plain(s) =>
        found := found + (set q | q in runs(s));
        found := found + (set q | q in AllCodes(s, AtTag, 0));
      case Segments(segments) =>
        var i := 0;
        while i < |segments|
          invariant i <= |segments|
          invariant found == SegmentsGathered(segments[..i], runs)
        {
          GatheredSnoc(segments[..i], segments[i], runs);
          assert segments[..i + 1] == segments[..i] + [segments[i]];
          match segments[i] {
            case Text(t) =>
              found := found + (set q | q in runs(t));
            case At(qq) =>
              if qq != [] {
                found := found + {qq};
              }
            case _ =>
          }
          i := i + 1;
        }
        assert segments[..|segments|] == segments;
    }
    qqs := [];
    var rest := found;
    while rest != {}
      invariant rest <= found
      invariant forall q :: q in qqs <==> q in found - rest && Kept(q, robot)
      invariant forall i, j :: 0 <= i < j < |qqs| ==> qqs[i] != qqs[j]
      decreases rest
    {
      var q :| q in rest;
      assert q !in qqs;
      if q != [] && q != robot && q != "0" && |q| >= 5 {
        qqs := qqs + [q];
      }
      rest := rest - {q};
    }
  }

  lemma GatheredSnoc(segments: seq<Segment>, seg: Segment, runs: string -> seq<string>)
    ensures SegmentsGathered(segments + [seg], runs) == SegmentsGathered(segments, runs) + SegmentFinds(seg, runs)
  {
    var all := segments + [seg];
    forall q | q in SegmentsGathered(all, runs)
      ensures q in SegmentsGathered(segments, runs) + SegmentFinds(seg, runs)
    {
      var k :| 0 <= k < |all| && q in SegmentFinds(all[k], runs);
      if k < |segments| {
        assert all[k] == segments[k];
      }
    }
    forall q | q in SegmentsGathered(segments, runs) ensures q in SegmentsGathered(all, runs) {
      var k :| 0 <= k < |segments| && q in SegmentFinds(segments[k], runs);
      assert all[k] == segments[k];
    }
    forall q | q in SegmentFinds(seg, runs) ensures q in SegmentsGathered(all, runs) {
      assert all[|segments|] == seg;
    }
  }

  /** A mention with an empty id is ignored; a non-empty one of at least
      five characters that is not the bot is a candidate. */
  lemma MentionsCount(qq: string, robot: string, runs: string -> seq<string>)
    ensures qq == [] ==> Gathered(Segments([At(qq)]), runs) == {}
    ensures Kept(qq, robot) ==> qq in Gathered(Segments([At(qq)]), runs)
  {
    var segs := [At(qq)];
    assert segs[0] == At(qq);
    if Kept(qq, robot) {
      assert qq in SegmentFinds(segs[0], runs);
    }
  }

  // -----------------------------------------------------------------------
  // is_robot_reply_to_user

  /** The content the candidate search reads: `message`, else
      `raw_message`. */
  function ContentOf(md: MessageData): Option<Content> {
    if md.message.Some? then md.message
    else if md.raw.Some? then Some(Plain(md.raw.value))
    else None
  }

  /** Python truthiness of a content: a non-empty string or list. */
  predicate NonEmpty(c: Content) {
    match c
    case Plain(s) => s != []
    case Segments(segments) => segments != []
  }

  /** `is_robot_reply_to_user` on the bot's message `md`: when that message
      replies to a message whose sender could be read (`repliedSender`, the
      platform's answer), the two must be the same user; otherwise the user
      must be among the candidates of the bot message's content. */
  function IsTrigger(md: MessageData, user: string, robot: string, repliedSender: Option<string>,
                     runs: string -> seq<string>): bool
  {
    var rid := RepliedId(md);
    if rid.Some? && rid.value != [] && repliedSender.Some? && repliedSender.value != [] then
      repliedSender.value == user
    else
      match ContentOf(md)
      case None => false
      case Some(c) => NonEmpty(c) && user in Gathered(c, runs) && Kept(user, robot)
  }

  /** When the replied-to sender decides nothing, only a kept candidate of
      the bot message's non-empty content triggers it; in particular the bot
      itself never does. */
  lemma TriggerFallback(md: MessageData, user: string, robot: string, repliedSender: Option<string>,
                        runs: string -> seq<string>)
    requires repliedSender.None? || repliedSender.value == [] || RepliedId(md).None? || RepliedId(md).value == []
    ensures IsTrigger(md, user, robot, repliedSender, runs)
            <==> ContentOf(md).Some? && NonEmpty(ContentOf(md).value)
                 && user in Gathered(ContentOf(md).value, runs) && Kept(user, robot)
    ensures !IsTrigger(md, robot, robot, repliedSender, runs)
  {
  }

  /** A readable replied-to sender decides on its own. */
  lemma TriggerByRepliedSender(md: MessageData, user: string, robot: string, sender: string,
                               runs: string -> seq<string>)
    requires RepliedId(md).Some? && RepliedId(md).value != [] && sender != []
    ensures IsTrigger(md, user, robot, Some(sender), runs) <==> sender == user
  {
  }

  // -----------------------------------------------------------------------
  // The on_message decision

  /** The recall command event. */
  datatype Event = Event(groupId: string, userId: string, selfId: string, text: string, segments: seq<Segment>)

  /** What fetching the target returned: it raised, it returned nothing
      usable, or it returned the message's data. */
  datatype Fetch = FetchRaised | NoData | Fetched(data: MessageData)

  /** How `del_message` ended. */
  datatype Deletion = DeletedOk | DeleteRaised(error: string)

  datatype Answer =
    | Ignored
    | Help
    | CannotFetch
    | NotBotMessage
    | NotOwnTrigger
    | TooOldToRecall
    | Recalled
    | AlreadyRecalledAnswer
    | NoPermission
    | Expired
    | RetryLater
    | RecallFailed

  /** The decision and whether `del_message` was called. */
  datatype Decision = Decision(answer: Answer, deleteAttempted: bool)

  /** The error classes of a failed delete, first match first: the text is
      lower-cased and searched for the key phrases. */
  function Classify(error: string): (a: Answer)
    ensures a in {AlreadyRecalledAnswer, NoPermission, Expired, RetryLater}
  {
    var l := Lower(error);
    if Contains(l, "message already recalled") || Contains(l, "已被撤回") then AlreadyRecalledAnswer
    else if Contains(l, "permission") || Contains(l, "权限") then NoPermission
    else if Contains(l, "timeout") || Contains(l, "time") then Expired
    else RetryLater
  }

  /** `on_message` of the recall plugin. `admins` is the administrator
      list, `repliedSender` the answer used by the trigger test, `now` the
      current time in seconds. */
  function Decide(ev: Event, admins: set<string>, reminder: string, fetch: Fetch, repliedSender: Option<string>,
                  runs: string -> seq<string>, now: int, deletion: Deletion): Decision
  {
    if ev.groupId == [] || !StartsWith(ev.text, reminder + Keyword) then Decision(Ignored, false)
    else if ev.segments == [] || !ev.segments[0].ReplyTo? then Decision(Help, false)
    else match fetch
      case FetchRaised =>
        Decision(if deletion.DeletedOk? then Recalled else RecallFailed, true)
      case NoData => Decision(CannotFetch, false)
      case Fetched(md) =>
        if md.userId != Some(ev.selfId) then Decision(NotBotMessage, false)
        else if ev.userId !in admins && !IsTrigger(md, ev.userId, ev.selfId, repliedSender, runs) then
          Decision(NotOwnTrigger, false)
        else if ev.userId !in admins && TooOld(md, now, 2) then Decision(TooOldToRecall, false)
        else match deletion
          case DeletedOk => Decision(Recalled, true)
          case DeleteRaised(e) => Decision(Classify(e), true)
  }

  /** The deletion is attempted exactly when the command is well formed and
      either fetching the target raised, or the target is the bot's own and
      the user is an administrator or triggered it no more than two minutes
      ago. */
  lemma DeleteOnlyWhenAllowed(ev: Event, admins: set<string>, reminder: string, fetch: Fetch,
                              repliedSender: Option<string>, runs: string -> seq<string>, now: int,
                              deletion: Deletion)
    ensures Decide(ev, admins, reminder, fetch, repliedSender, runs, now, deletion).deleteAttempted
            <==> ev.groupId != [] && StartsWith(ev.text, reminder + Keyword)
                 && ev.segments != [] && ev.segments[0].ReplyTo?
                 && (fetch.FetchRaised?
                     || (fetch.Fetched? && fetch.data.userId == Some(ev.selfId)
                         && (ev.userId in admins
                             || (IsTrigger(fetch.data, ev.userId, ev.selfId, repliedSender, runs)
                                 && !TooOld(fetch.data, now, 2)))))
  {
  }

  /** Administrators skip the trigger and age tests. */
  lemma AdminsSkipChecks(ev: Event, admins: set<string>, reminder: string, md: MessageData,
                         repliedSender: Option<string>, runs: string -> seq<string>, now: int,
                         deletion: Deletion, md2: MessageData, repliedSender2: Option<string>, now2: int)
    requires ev.userId in admins && md.userId == md2.userId
    ensures Decide(ev, admins, reminder, Fetched(md), repliedSender, runs, now, deletion)
            == Decide(ev, admins, reminder, Fetched(md2), repliedSender2, runs, now2, deletion)
  {
  }

  /** Only the bot's own messages are recalled by the checked path. */
  lemma OnlyBotMessages(ev: Event, admins: set<string>, reminder: string, md: MessageData,
                        repliedSender: Option<string>, runs: string -> seq<string>, now: int, deletion: Deletion)
    requires md.userId != Some(ev.selfId)
    ensures !Decide(ev, admins, reminder, Fetched(md), repliedSender, runs, now, deletion).deleteAttempted
  {
  }

  /** A "timeout" text is also a "time" text, so the class is the same
      whichever of the two is checked; when a text mentions an earlier recall
      and a permission problem, the recall wins. */
  lemma ClassifyOrder(e: string)
    ensures Contains(Lower(e), "timeout") && !Contains(Lower(e), "权限") && !Contains(Lower(e), "permission")
            && !Contains(Lower(e), "message already recalled") && !Contains(Lower(e), "已被撤回")
            ==> Classify(e) == Expired
    ensures Contains(Lower(e), "message already recalled") ==> Classify(e) == AlreadyRecalledAnswer
  {
  }

  /** A text that lacks a pattern's first character does not contain it. */
  lemma MissingFirstChar(l: string, pat: string)
    requires pat != [] && pat[0] !in l
    ensures !Contains(l, pat)
  {
    forall i | 0 <= i <= |l| - |pat| ensures !OccursAt(l, pat, i) {
      assert l[i] in l && l[i..i + |pat|][0] == l[i];
    }
  }

  /** The bare phrase "already recalled", without "message", is not
      recognised as an earlier recall. */
  lemma BarePhraseNotRecognised()
    ensures Classify("already recalled") == RetryLater
  {
    var l := Lower("already recalled");
    assert l == "already recalled";
    assert !Contains(l, "message already recalled") by {
      assert |l| < |"message already recalled"|;
    }
    MissingFirstChar(l, "已被撤回");
    MissingFirstChar(l, "permission");
    MissingFirstChar(l, "权限");
    MissingFirstChar(l, "timeout");
    MissingFirstChar(l, "time");
  }
}
