/** The two handlers that change the bot's state: `process_message`, which reposts the first link
    of a message that conversion changes and records who asked for it in `user_message_map`, and
    `delete_command`, which lets that user or a chat administrator delete the repost. Telegram and
    the statistics database are a transport whose calls are logged and whose outcomes are open. */
module Bot {
  import opened Options
  import Links
  import Normalize
  import Repost

  /** How a call into Telegram ends: normally, raising `BadRequest`, or raising anything else. */
  datatype Outcome = Ok | BadRequest | OtherError

  /** The message the bot replied to, as much of it as `delete_command` reads. */
  datatype Replied = Replied(id: int, senderIsBot: bool)

  /** An incoming message: its id, its chat, its sender, its text and the message it replies to. */
  datatype Message = Message(id: int, chatId: int, sender: Repost.User, text: string, replyTo: Option<Replied>)

  /** A call the handlers make on the outside world, in the order they make them. */
  datatype Call =
    | TrackUser(userId: int)
    | TrackChat(chatId: int)
    | SendMessage(chatId: int, text: string)
    | TrackConversion(userId: int, chatId: int, original: string, fixed: string)
    | DeleteMessage(chatId: int, messageId: int)
    | ReplyText(chatId: int, text: string, replyTo: Option<int>)
    | GetChatMember(chatId: int, userId: int)
    | DeleteLater(chatId: int, messageId: int, seconds: int)

  /** The calls a handler made and the `user_message_map` it left. */
  datatype Effects = Effects(calls: seq<Call>, owners: map<int, int>)

  const FALLBACK_PREFIX := "I need admin privileges to delete messages. For now, here's the fixed link:\n\n"
  const DENIED_TEXT := "You can only delete messages that were originally posted by you."
  const FAILED_TEXT := "Failed to delete the message. I might not have the necessary permissions."
  /** The delay, in seconds, after which a refused `/delete` command is removed. */
  const DENIED_DELAY := 5
  /** The chat member statuses that may delete any repost. */
  const ADMIN_STATUSES := {"administrator", "creator"}

  /** The reply `process_message` falls back to when reposting fails. */
  function FallbackText(fixed: string): string {
    FALLBACK_PREFIX + fixed
  }

  /** What `process_message` does once it has picked the link `original` of `msg`, converted it
      to `fixed` and composed the repost text `repost`, given how the calls it makes end: the message it sent (or `None` when sending
      raised), whether recording the conversion went through, and how deleting the original
      ended. Any failure ends in the fallback reply; the map entry is written as soon as the
      repost is sent. */
  function Act(owners: map<int, int>, msg: Message, original: string, fixed: string, repost: string,
               sent: Option<int>, tracked: bool, deleted: Outcome): Effects
  {
    var attempt := [SendMessage(msg.chatId, repost)];
    var fallback := [ReplyText(msg.chatId, FallbackText(fixed), None)];
    match sent
    case None => Effects(attempt + fallback, owners)
    case Some(id) =>
      var recorded := owners[id := msg.sender.id];
      var logged := attempt + [TrackConversion(msg.sender.id, msg.chatId, original, fixed)];
      if !tracked then Effects(logged + fallback, recorded)
      else if deleted != Ok then Effects(logged + [DeleteMessage(msg.chatId, msg.id)] + fallback, recorded)
      else Effects(logged + [DeleteMessage(msg.chatId, msg.id)], recorded)
  }

  /** What `process_message` does with `msg`, whose links `finditer` reports as `ms`, when links
      are converted with `convert`: nothing for a message from a bot; otherwise it records the
      user and the chat, and acts on the first link that conversion changes, if any. */
  function Process(owners: map<int, int>, msg: Message, ms: seq<Links.Match>, convert: string -> string,
                   sent: Option<int>, tracked: bool, deleted: Outcome): Effects
    requires Repost.Inside(msg.text, ms)
  {
    if msg.sender.isBot then Effects([], owners)
    else
      var tracks := [TrackUser(msg.sender.id), TrackChat(msg.chatId)];
      match Repost.FirstChanged(msg.text, ms, 0, convert)
      case None => Effects(tracks, owners)
      case Some(i) =>
        var original := Repost.LinkOf(msg.text, ms[i]);
        var fixed := convert(original);
        var repost := Repost.RepostText(Repost.DisplayName(msg.sender), msg.text, ms[i], fixed);
        var e := Act(owners, msg, original, fixed, repost, sent, tracked, deleted);
        Effects(tracks + e.calls, e.owners)
  }

  lemma AppendAssoc<T>(a: seq<T>, b: seq<T>, c: seq<T>)
    ensures a + b + c == a + (b + c)
  {
  }

  /** `process_message` on a message with no link that conversion changes only records the user
      and the chat. */
  lemma ProcessUnchanged(owners: map<int, int>, msg: Message, ms: seq<Links.Match>, convert: string -> string, sent: Option<int>, tracked: bool, deleted: Outcome)
    requires !msg.sender.isBot
    requires Repost.Inside(msg.text, ms) && Repost.FirstChanged(msg.text, ms, 0, convert).None?
    ensures Process(owners, msg, ms, convert, sent, tracked, deleted)
      == Effects([TrackUser(msg.sender.id), TrackChat(msg.chatId)], owners)
  {
  }

  /** `process_message` on a message whose first changed link is match `i` acts on that link. */
  lemma ProcessChanged(owners: map<int, int>, msg: Message, ms: seq<Links.Match>, convert: string -> string, i: nat, sent: Option<int>, tracked: bool, deleted: Outcome)
    requires !msg.sender.isBot
    requires Repost.Inside(msg.text, ms) && Repost.FirstChanged(msg.text, ms, 0, convert) == Some(i)
    ensures var m := ms[i];
      var original := Repost.LinkOf(msg.text, m);
      var fixed := convert(original);
      var e := Act(owners, msg, original, fixed, Repost.RepostText(Repost.DisplayName(msg.sender), msg.text, m, fixed),
                   sent, tracked, deleted);
      Process(owners, msg, ms, convert, sent, tracked, deleted)
      == Effects([TrackUser(msg.sender.id), TrackChat(msg.chatId)] + e.calls, e.owners)
  {
  }

  /** The link `process_message` acts on is a link of the pattern, conversion changes it, and it
      leaves every link before it unchanged. */
  lemma PickedLink(text: string, i: nat)
    requires Repost.FirstChanged(text, Links.Matches(text), 0, Normalize.ConvertToFixupx) == Some(i)
    ensures var ms := Links.Matches(text);
      && Links.IsLink(text[ms[i].start..ms[i].end])
      && Normalize.ConvertToFixupx(text[ms[i].start..ms[i].end]) != text[ms[i].start..ms[i].end]
      && forall k :: 0 <= k < i ==>
           Normalize.ConvertToFixupx(text[ms[k].start..ms[k].end]) == text[ms[k].start..ms[k].end]
  {
    var ms := Links.Matches(text);
    Repost.MatchesInside(text);
    Links.MatchesAreLinks(text);
    assert Repost.Changed(text, ms[i], Normalize.ConvertToFixupx);
    forall k | 0 <= k < i
      ensures Normalize.ConvertToFixupx(text[ms[k].start..ms[k].end]) == text[ms[k].start..ms[k].end]
    {
      assert !Repost.Changed(text, ms[k], Normalize.ConvertToFixupx);
    }
  }

  /** Sending only as the first of `tail`, after two tracking calls, means sending only as the third call. */
  lemma SendsThird(c0: Call, c1: Call, tail: seq<Call>)
    requires !c0.SendMessage? && !c1.SendMessage?
    requires tail != [] && tail[0].SendMessage? && forall j :: 0 < j < |tail| ==> !tail[j].SendMessage?
    ensures var calls := [c0, c1] + tail;
      |calls| > 2 && calls[2].SendMessage? && forall j :: 0 <= j < |calls| && j != 2 ==> !calls[j].SendMessage?
  {
    var calls := [c0, c1] + tail;
    forall j | 0 <= j < |calls| && j != 2
      ensures !calls[j].SendMessage?
    {
      if j >= 2 {
        assert calls[j] == tail[j - 2];
      }
    }
  }

  /** `process_message` makes at most one `send_message` call, the repost, as its third call, and
      makes it exactly when the sender is not a bot and the message has a link that conversion
      changes. (The fallback `reply_text` is a separate call; see `ProcessDeletesOriginal`.) */
  lemma ProcessSendsOnce(owners: map<int, int>, msg: Message, ms: seq<Links.Match>, convert: string -> string, sent: Option<int>, tracked: bool, deleted: Outcome)
    requires Repost.Inside(msg.text, ms)
    ensures var calls := Process(owners, msg, ms, convert, sent, tracked, deleted).calls;
      && (forall j :: 0 <= j < |calls| && j != 2 ==> !calls[j].SendMessage?)
      && (|calls| > 2 && calls[2].SendMessage? <==> !msg.sender.isBot && Repost.FirstChanged(msg.text, ms, 0, convert).Some?)
  {
    if msg.sender.isBot {
    } else if Repost.FirstChanged(msg.text, ms, 0, convert).Some? {
      var i := Repost.FirstChanged(msg.text, ms, 0, convert).value;
      var original := Repost.LinkOf(msg.text, ms[i]);
      var fixed := convert(original);
      var repost := Repost.RepostText(Repost.DisplayName(msg.sender), msg.text, ms[i], fixed);
      ProcessChanged(owners, msg, ms, convert, i, sent, tracked, deleted);
      ActSendsFirst(owners, msg, original, fixed, repost, sent, tracked, deleted);
      SendsThird(TrackUser(msg.sender.id), TrackChat(msg.chatId),
                 Act(owners, msg, original, fixed, repost, sent, tracked, deleted).calls);
    } else {
      ProcessUnchanged(owners, msg, ms, convert, sent, tracked, deleted);
    }
  }

  /** The message `process_message` sends, when it sends one, goes to the message's own chat and
      is the repost of the first link conversion changes: the sender's name, the text with that
      link replaced by its conversion. */
  lemma ProcessSendsRepost(owners: map<int, int>, msg: Message, ms: seq<Links.Match>, convert: string -> string, sent: Option<int>, tracked: bool, deleted: Outcome)
    requires Repost.Inside(msg.text, ms)
    requires !msg.sender.isBot && Repost.FirstChanged(msg.text, ms, 0, convert).Some?
    ensures var i := Repost.FirstChanged(msg.text, ms, 0, convert).value;
      var calls := Process(owners, msg, ms, convert, sent, tracked, deleted).calls;
      i < |ms| && |calls| > 2
      && calls[2] == SendMessage(msg.chatId, Repost.RepostText(Repost.DisplayName(msg.sender), msg.text, ms[i],
                                                               convert(Repost.LinkOf(msg.text, ms[i]))))
  {
    var i := Repost.FirstChanged(msg.text, ms, 0, convert).value;
    var original := Repost.LinkOf(msg.text, ms[i]);
    var fixed := convert(original);
    var repost := Repost.RepostText(Repost.DisplayName(msg.sender), msg.text, ms[i], fixed);
    ProcessChanged(owners, msg, ms, convert, i, sent, tracked, deleted);
    ActSendsFirst(owners, msg, original, fixed, repost, sent, tracked, deleted);
  }

  /** Once it has picked its link, `process_message` first sends the repost and sends nothing else. */
  lemma ActSendsFirst(owners: map<int, int>, msg: Message, original: string, fixed: string, repost: string,
                      sent: Option<int>, tracked: bool, deleted: Outcome)
    ensures var calls := Act(owners, msg, original, fixed, repost, sent, tracked, deleted).calls;
      && calls != [] && calls[0] == SendMessage(msg.chatId, repost)
      && forall j :: 0 < j < |calls| ==> !calls[j].SendMessage?
  {
  }

  /** `process_message` writes at most one entry, for the repost it sent, owned by the sender; it
      writes it as soon as the repost is sent, so the entry stays when recording the conversion or
      deleting the original fails afterwards. */
  lemma ProcessOwners(owners: map<int, int>, msg: Message, ms: seq<Links.Match>, convert: string -> string, sent: Option<int>, tracked: bool, deleted: Outcome)
    requires Repost.Inside(msg.text, ms)
    ensures var after := Process(owners, msg, ms, convert, sent, tracked, deleted).owners;
      if !msg.sender.isBot && Repost.FirstChanged(msg.text, ms, 0, convert).Some? && sent.Some?
      then after == owners[sent.value := msg.sender.id]
      else after == owners
  {
    if !msg.sender.isBot && Repost.FirstChanged(msg.text, ms, 0, convert).Some? {
      var i := Repost.FirstChanged(msg.text, ms, 0, convert).value;
      var original := Repost.LinkOf(msg.text, ms[i]);
      var fixed := convert(original);
      var repost := Repost.RepostText(Repost.DisplayName(msg.sender), msg.text, ms[i], fixed);
      ProcessChanged(owners, msg, ms, convert, i, sent, tracked, deleted);
      ActOwners(owners, msg, original, fixed, repost, sent, tracked, deleted);
    } else if !msg.sender.isBot {
      ProcessUnchanged(owners, msg, ms, convert, sent, tracked, deleted);
    }
  }

  /** Once it has picked its link, `process_message` records the sent repost's owner, and only that. */
  lemma ActOwners(owners: map<int, int>, msg: Message, original: string, fixed: string, repost: string,
                  sent: Option<int>, tracked: bool, deleted: Outcome)
    ensures Act(owners, msg, original, fixed, repost, sent, tracked, deleted).owners
      == if sent.Some? then owners[sent.value := msg.sender.id] else owners
  {
  }

  /** Some call in `calls` is a reply. */
  predicate Replies(calls: seq<Call>) {
    exists j :: 0 <= j < |calls| && calls[j].ReplyText?
  }

  /** Two tracking calls in front change neither which messages are deleted nor whether there is a reply. */
  lemma AfterTracking(c0: Call, c1: Call, tail: seq<Call>, chat: int, id: int)
    requires c0.TrackUser? && c1.TrackChat?
    ensures DeleteMessage(chat, id) in [c0, c1] + tail <==> DeleteMessage(chat, id) in tail
    ensures Replies([c0, c1] + tail) <==> Replies(tail)
  {
    var calls := [c0, c1] + tail;
    if Replies(calls) {
      var j :| 0 <= j < |calls| && calls[j].ReplyText?;
      assert calls[j] == tail[j - 2];
    }
    if Replies(tail) {
      var j :| 0 <= j < |tail| && tail[j].ReplyText?;
      assert calls[j + 2] == tail[j];
    }
  }

  /** `process_message` deletes the user's message only after the repost was sent and the
      conversion recorded, and falls back to replying with the fixed link exactly when one of the
      three calls failed. */
  lemma ProcessDeletesOriginal(owners: map<int, int>, msg: Message, ms: seq<Links.Match>, convert: string -> string, sent: Option<int>, tracked: bool, deleted: Outcome)
    requires Repost.Inside(msg.text, ms)
    ensures var calls := Process(owners, msg, ms, convert, sent, tracked, deleted).calls;
      var picked := !msg.sender.isBot && Repost.FirstChanged(msg.text, ms, 0, convert).Some?;
      && (DeleteMessage(msg.chatId, msg.id) in calls <==> picked && sent.Some? && tracked)
      && (Replies(calls) <==> picked && (sent.None? || !tracked || deleted != Ok))
  {
    if msg.sender.isBot {
    } else if Repost.FirstChanged(msg.text, ms, 0, convert).Some? {
      var i := Repost.FirstChanged(msg.text, ms, 0, convert).value;
      var original := Repost.LinkOf(msg.text, ms[i]);
      var fixed := convert(original);
      var repost := Repost.RepostText(Repost.DisplayName(msg.sender), msg.text, ms[i], fixed);
      ProcessChanged(owners, msg, ms, convert, i, sent, tracked, deleted);
      ActDeletes(owners, msg, original, fixed, repost, sent, tracked, deleted);
      AfterTracking(TrackUser(msg.sender.id), TrackChat(msg.chatId),
                    Act(owners, msg, original, fixed, repost, sent, tracked, deleted).calls, msg.chatId, msg.id);
    } else {
      ProcessUnchanged(owners, msg, ms, convert, sent, tracked, deleted);
      assert !Replies([TrackUser(msg.sender.id), TrackChat(msg.chatId)]);
    }
  }

  /** The calls after the repost: the user's message is deleted once the conversion is recorded,
      and the fallback reply follows any failure. */
  lemma ActDeletes(owners: map<int, int>, msg: Message, original: string, fixed: string, repost: string,
                   sent: Option<int>, tracked: bool, deleted: Outcome)
    ensures var calls := Act(owners, msg, original, fixed, repost, sent, tracked, deleted).calls;
      && (DeleteMessage(msg.chatId, msg.id) in calls <==> sent.Some? && tracked)
      && (Replies(calls) <==> sent.None? || !tracked || deleted != Ok)
  {
    var calls := Act(owners, msg, original, fixed, repost, sent, tracked, deleted).calls;
    if sent.None? || !tracked || deleted != Ok {
      assert calls[|calls| - 1].ReplyText?;
    }
  }

  /** `delete_command` lets the requester delete the repost when they are an administrator or the
      creator of the chat, or when the map records them as the one who posted it. */
  predicate MayDelete(owners: map<int, int>, target: int, user: int, status: string) {
    status in ADMIN_STATUSES || (target in owners && owners[target] == user)
  }

  /** What `delete_command` does with the command `cmd`, given how the calls it makes end: the
      member lookup and the status it reports, deleting the repost, deleting the command, and
      the refusal reply. */
  function Delete(owners: map<int, int>, cmd: Message, member: Outcome, status: string,
                  deletedRepost: Outcome, deletedCommand: Outcome, replied: Outcome): Effects {
    if cmd.replyTo.None? || !cmd.replyTo.value.senderIsBot then Effects([], owners)
    else
      var chat := cmd.chatId;
      var target := cmd.replyTo.value.id;
      var lookup := [GetChatMember(chat, cmd.sender.id)];
      var failed := [ReplyText(chat, FAILED_TEXT, Some(cmd.id))];
      if member == BadRequest then Effects(lookup + failed, owners)
      else if member == OtherError then Effects(lookup, owners)
      else if MayDelete(owners, target, cmd.sender.id, status) then
        var first := lookup + [DeleteMessage(chat, target)];
        if deletedRepost == BadRequest then Effects(first + failed, owners)
        else if deletedRepost == OtherError then Effects(first, owners)
        else
          var second := first + [DeleteMessage(chat, cmd.id)];
          if deletedCommand == BadRequest then Effects(second + failed, owners)
          else if deletedCommand == OtherError then Effects(second, owners)
          else Effects(second, owners - {target})
      else
        var refusal := lookup + [ReplyText(chat, DENIED_TEXT, Some(cmd.id))];
        if replied == BadRequest then Effects(refusal + failed, owners)
        else if replied == OtherError then Effects(refusal, owners)
        else Effects(refusal + [DeleteLater(chat, cmd.id, DENIED_DELAY)], owners)
  }

  /** The message a `/delete` command asks to remove: the bot message it replies to, if any. */
  predicate RepliesToBot(cmd: Message) {
    cmd.replyTo.Some? && cmd.replyTo.value.senderIsBot
  }

  /** A `/delete` that does not reply to a bot's message does nothing at all. */
  lemma DeleteIgnored(owners: map<int, int>, cmd: Message, member: Outcome, status: string,
                      deletedRepost: Outcome, deletedCommand: Outcome, replied: Outcome)
    requires !RepliesToBot(cmd)
    ensures Delete(owners, cmd, member, status, deletedRepost, deletedCommand, replied) == Effects([], owners)
  {
  }

  /** `delete_command` asks Telegram to delete the message it was replied to exactly when the
      member lookup succeeded and the requester is an administrator, the creator, or the
      recorded owner of that message. */
  lemma DeleteAuthorized(owners: map<int, int>, cmd: Message, member: Outcome, status: string,
                         deletedRepost: Outcome, deletedCommand: Outcome, replied: Outcome)
    requires RepliesToBot(cmd)
    ensures var calls := Delete(owners, cmd, member, status, deletedRepost, deletedCommand, replied).calls;
      DeleteMessage(cmd.chatId, cmd.replyTo.value.id) in calls
      <==> member == Ok && MayDelete(owners, cmd.replyTo.value.id, cmd.sender.id, status)
  {
    var target := cmd.replyTo.value.id;
    var calls := Delete(owners, cmd, member, status, deletedRepost, deletedCommand, replied).calls;
    if member == Ok && MayDelete(owners, target, cmd.sender.id, status) {
      assert calls[1] == DeleteMessage(cmd.chatId, target);
    }
  }

  /** A message the map does not record can only be deleted by an administrator or the creator. */
  lemma DeleteUntracked(owners: map<int, int>, cmd: Message, member: Outcome, status: string,
                        deletedRepost: Outcome, deletedCommand: Outcome, replied: Outcome)
    requires RepliesToBot(cmd) && cmd.replyTo.value.id !in owners
    ensures var calls := Delete(owners, cmd, member, status, deletedRepost, deletedCommand, replied).calls;
      DeleteMessage(cmd.chatId, cmd.replyTo.value.id) in calls <==> member == Ok && status in ADMIN_STATUSES
  {
    DeleteAuthorized(owners, cmd, member, status, deletedRepost, deletedCommand, replied);
  }

  /** `delete_command` only ever removes the entry of the message it deleted, and removes it exactly
      when deleting both that message and the command went through; a refusal or a failure leaves
      the map as it was. */
  lemma DeleteOwners(owners: map<int, int>, cmd: Message, member: Outcome, status: string,
                     deletedRepost: Outcome, deletedCommand: Outcome, replied: Outcome)
    ensures var after := Delete(owners, cmd, member, status, deletedRepost, deletedCommand, replied).owners;
      && after.Keys <= owners.Keys
      && (forall k :: k in after ==> after[k] == owners[k])
      && (RepliesToBot(cmd) ==>
            (cmd.replyTo.value.id in after
             <==> cmd.replyTo.value.id in owners
                  && !(member == Ok && MayDelete(owners, cmd.replyTo.value.id, cmd.sender.id, status)
                       && deletedRepost == Ok && deletedCommand == Ok)))
      && (forall k :: k in owners && (!RepliesToBot(cmd) || k != cmd.replyTo.value.id) ==> k in after)
  {
  }

  /** A refused `/delete` deletes nothing and leaves the map alone; it answers the requester and,
      when that answer went through, schedules the deletion of the requester's command message,
      not of the answer, after five seconds. */
  lemma DeleteRefused(owners: map<int, int>, cmd: Message, member: Outcome, status: string,
                      deletedRepost: Outcome, deletedCommand: Outcome, replied: Outcome)
    requires RepliesToBot(cmd) && member == Ok && !MayDelete(owners, cmd.replyTo.value.id, cmd.sender.id, status)
    ensures var e := Delete(owners, cmd, member, status, deletedRepost, deletedCommand, replied);
      && e.owners == owners
      && (forall j :: 0 <= j < |e.calls| ==> !e.calls[j].DeleteMessage?)
      && ReplyText(cmd.chatId, DENIED_TEXT, Some(cmd.id)) in e.calls
      && (replied == Ok ==> e.calls[|e.calls| - 1] == DeleteLater(cmd.chatId, cmd.id, 5))
      && (replied != Ok ==> forall j :: 0 <= j < |e.calls| ==> !e.calls[j].DeleteLater?)
  {
    var e := Delete(owners, cmd, member, status, deletedRepost, deletedCommand, replied);
    assert e.calls[1] == ReplyText(cmd.chatId, DENIED_TEXT, Some(cmd.id));
  }

  /** Telegram and the statistics database as the handlers see them: every call is logged, and
      how it ends is not known in advance. */
  class Transport {
    var calls: seq<Call>

    constructor()
      ensures calls == []
    {
      calls := [];
    }

    /** `track_user` and `track_chat`. */
    method Track(c: Call)
      requires c.TrackUser? || c.TrackChat?
      modifies this
      ensures calls == old(calls) + [c]
    {
      calls := calls + [c];
    }

    /** `send_message`: the id of the message sent, or `None` when the call raised. */
    method SendMessage(chatId: int, text: string) returns (sent: Option<int>)
      modifies this
      ensures calls == old(calls) + [Call.SendMessage(chatId, text)]
    {
      calls := calls + [Call.SendMessage(chatId, text)];
      var ok: bool :| true;
      var id: int :| true;
      sent := if ok then Some(id) else None;
    }

    /** `track_conversion`: whether the row was written. */
    method TrackConversion(userId: int, chatId: int, original: string, fixed: string) returns (ok: bool)
      modifies this
      ensures calls == old(calls) + [Call.TrackConversion(userId, chatId, original, fixed)]
    {
      calls := calls + [Call.TrackConversion(userId, chatId, original, fixed)];
      ok :| true;
    }

    /** `delete_message`. */
    method DeleteMessage(chatId: int, messageId: int) returns (outcome: Outcome)
      modifies this
      ensures calls == old(calls) + [Call.DeleteMessage(chatId, messageId)]
    {
      calls := calls + [Call.DeleteMessage(chatId, messageId)];
      outcome :| true;
    }

    /** `reply_text`. */
    method ReplyText(chatId: int, text: string, replyTo: Option<int>) returns (outcome: Outcome)
      modifies this
      ensures calls == old(calls) + [Call.ReplyText(chatId, text, replyTo)]
    {
      calls := calls + [Call.ReplyText(chatId, text, replyTo)];
      outcome :| true;
    }

    /** `get_chat_member`: how the call ended and the member's status. */
    method GetChatMember(chatId: int, userId: int) returns (outcome: Outcome, status: string)
      modifies this
      ensures calls == old(calls) + [Call.GetChatMember(chatId, userId)]
    {
      calls := calls + [Call.GetChatMember(chatId, userId)];
      outcome :| true;
      status :| true;
    }

    /** `job_queue.run_once` with a job that deletes a message. */
    method DeleteLater(chatId: int, messageId: int, seconds: int)
      modifies this
      ensures calls == old(calls) + [Call.DeleteLater(chatId, messageId, seconds)]
    {
      calls := calls + [Call.DeleteLater(chatId, messageId, seconds)];
    }
  }

  /** The bot: the transport it talks through and `user_message_map`, from the id of each repost
      to the id of the user whose message it replaced. */
  class FixupBot {
    const transport: Transport
    var userMessageMap: map<int, int>

    constructor(t: Transport)
      ensures transport == t && userMessageMap == map[]
    {
      transport := t;
      userMessageMap := map[];
    }

    /** `process_message`: returns how the calls it made ended; the calls it made and the map it
        leaves are those `Process` gives for these outcomes. */
    method ProcessMessage(msg: Message) returns (sent: Option<int>, tracked: bool, deleted: Outcome)
      modifies this, transport
      ensures transport.calls
        == old(transport.calls) + Process(old(userMessageMap), msg, Links.Matches(msg.text), Normalize.ConvertToFixupx, sent, tracked, deleted).calls
      ensures userMessageMap == Process(old(userMessageMap), msg, Links.Matches(msg.text), Normalize.ConvertToFixupx, sent, tracked, deleted).owners
    {
      sent, tracked, deleted := None, false, Ok;
      if msg.sender.isBot {
        return;
      }
      transport.Track(TrackUser(msg.sender.id));
      transport.Track(TrackChat(msg.chatId));
      var ms := Links.Matches(msg.text);
      Repost.MatchesInside(msg.text);
      if ms == [] {
        ProcessUnchanged(old(userMessageMap), msg, ms, Normalize.ConvertToFixupx, sent, tracked, deleted);
        return;
      }
      var i := 0;
      while i < |ms|
        invariant 0 <= i <= |ms|
        invariant Repost.FirstChanged(msg.text, ms, 0, Normalize.ConvertToFixupx)
          == Repost.FirstChanged(msg.text, ms, i, Normalize.ConvertToFixupx)
        invariant transport.calls == old(transport.calls) + [TrackUser(msg.sender.id), TrackChat(msg.chatId)]
        invariant userMessageMap == old(userMessageMap)
      {
        var original := msg.text[ms[i].start..ms[i].end];
        var fixed := Normalize.ConvertToFixupx(original);
        if fixed != original {
          var repost := Repost.RepostText(Repost.DisplayName(msg.sender), msg.text, ms[i], fixed);
          ghost var tracks := transport.calls;
          sent, tracked, deleted := RepostLink(msg, original, fixed, repost);
          ghost var e := Act(old(userMessageMap), msg, original, fixed, repost, sent, tracked, deleted);
          ProcessChanged(old(userMessageMap), msg, ms, Normalize.ConvertToFixupx, i, sent, tracked, deleted);
          AppendAssoc(old(transport.calls), [TrackUser(msg.sender.id), TrackChat(msg.chatId)], e.calls);
          return;
        }
        i := i + 1;
      }
      ProcessUnchanged(old(userMessageMap), msg, ms, Normalize.ConvertToFixupx, sent, tracked, deleted);
    }

    /** The body of the `try` in `process_message`, for the link `original` converted to `fixed`
        and the repost text `repost`. */
    method RepostLink(msg: Message, original: string, fixed: string, repost: string)
      returns (sent: Option<int>, tracked: bool, deleted: Outcome)
      modifies this, transport
      ensures transport.calls
        == old(transport.calls) + Act(old(userMessageMap), msg, original, fixed, repost, sent, tracked, deleted).calls
      ensures userMessageMap == Act(old(userMessageMap), msg, original, fixed, repost, sent, tracked, deleted).owners
    {
      tracked, deleted := false, Ok;
      var fallback := [Call.ReplyText(msg.chatId, FallbackText(fixed), None)];
      ghost var before := transport.calls;
      sent := transport.SendMessage(msg.chatId, repost);
      var attempt := [Call.SendMessage(msg.chatId, repost)];
      if sent.None? {
        var _ := transport.ReplyText(msg.chatId, FallbackText(fixed), None);
        assert transport.calls == before + (attempt + fallback);
        return;
      }
      userMessageMap := userMessageMap[sent.value := msg.sender.id];
      tracked := transport.TrackConversion(msg.sender.id, msg.chatId, original, fixed);
      var logged := attempt + [Call.TrackConversion(msg.sender.id, msg.chatId, original, fixed)];
      assert transport.calls == before + logged;
      if !tracked {
        var _ := transport.ReplyText(msg.chatId, FallbackText(fixed), None);
        assert transport.calls == before + (logged + fallback);
        return;
      }
      deleted := transport.DeleteMessage(msg.chatId, msg.id);
      var removed := logged + [Call.DeleteMessage(msg.chatId, msg.id)];
      assert transport.calls == before + removed;
      if deleted != Ok {
        var _ := transport.ReplyText(msg.chatId, FallbackText(fixed), None);
        assert transport.calls == before + (removed + fallback);
      }
    }

    /** `delete_command`: returns how the calls it made ended; the calls it made and the map it
        leaves are those `Delete` gives for these outcomes. */
    method DeleteCommand(cmd: Message)
      returns (member: Outcome, status: string, deletedRepost: Outcome, deletedCommand: Outcome, replied: Outcome)
      modifies this, transport
      ensures transport.calls == old(transport.calls)
        + Delete(old(userMessageMap), cmd, member, status, deletedRepost, deletedCommand, replied).calls
      ensures userMessageMap
        == Delete(old(userMessageMap), cmd, member, status, deletedRepost, deletedCommand, replied).owners
    {
      member, status, deletedRepost, deletedCommand, replied := Ok, "", Ok, Ok, Ok;
      if cmd.replyTo.None? || !cmd.replyTo.value.senderIsBot {
        return;
      }
      var chat := cmd.chatId;
      var target := cmd.replyTo.value.id;
      var user := cmd.sender.id;
      member, status := transport.GetChatMember(chat, user);
      var raised := member;
      if member == Ok {
        var isAdmin := status in ADMIN_STATUSES;
        var isOwner := target in userMessageMap && userMessageMap[target] == user;
        if isOwner || isAdmin {
          deletedRepost := transport.DeleteMessage(chat, target);
          raised := deletedRepost;
          if deletedRepost == Ok {
            deletedCommand := transport.DeleteMessage(chat, cmd.id);
            raised := deletedCommand;
            if deletedCommand == Ok && target in userMessageMap {
              userMessageMap := userMessageMap - {target};
            }
          }
        } else {
          replied := transport.ReplyText(chat, DENIED_TEXT, Some(cmd.id));
          raised := replied;
          if replied == Ok {
            transport.DeleteLater(chat, cmd.id, DENIED_DELAY);
          }
        }
      }
      if raised == BadRequest {
        var _ := transport.ReplyText(chat, FAILED_TEXT, Some(cmd.id));
      }
    }
  }
}
