/** The message `process_message` posts in place of the user's: who posted it, the user's own
    words around the link, and the converted link; and which link of a message it acts on. */
module Repost {
  import opened Options
  import opened Text
  import Links
  import Normalize

  /** The part of a Telegram user the bot reads. */
  datatype User = User(id: int, isBot: bool, username: Option<string>, firstName: string)

  /** How the repost names the poster: `@username` when the user has a non-empty username,
      otherwise the first name. */
  function DisplayName(u: User): string {
    if u.username.Some? && u.username.value != "" then "@" + u.username.value else u.firstName
  }

  /** The italic attribution line that opens every repost. */
  function Attribution(name: string): string {
    "_Originally posted by " + name + " on date and time of this message:_"
  }

  /** `user_text`: the stripped text before the link followed by a space when it is non-empty,
      then the stripped text after the link when that is non-empty. */
  function UserText(before: string, after: string): string {
    var t := if before != "" then before + " " else "";
    if after != "" then t + after else t
  }

  /** The repost for the link `m` of `message`: the attribution, then the stripped user text after
      a blank line when there is any, then the converted link after a blank line. */
  function RepostText(name: string, message: string, m: Links.Match, fixed: string): string
    requires m.start <= m.end <= |message|
  {
    var user := Strip(UserText(Strip(message[..m.start]), Strip(message[m.end..])));
    var head := if user != "" then Attribution(name) + "\n\n" + user else Attribution(name);
    head + "\n\n" + fixed
  }

  /** The non-empty pieces of `ps`, in order. */
  function NonEmpty(ps: seq<string>): (r: seq<string>)
    ensures forall k :: 0 <= k < |r| ==> r[k] != ""
  {
    if ps == [] then []
    else if ps[0] == "" then NonEmpty(ps[1..])
    else [ps[0]] + NonEmpty(ps[1..])
  }

  /** The words the user wrote around the link as the repost shows them: the non-empty ones of
      the stripped text before and after it, joined by one space. */
  function Surrounding(message: string, m: Links.Match): string
    requires m.start <= m.end <= |message|
  {
    Join(NonEmpty([Strip(message[..m.start]), Strip(message[m.end..])]), ' ')
  }

  /** Joining the non-empty ones of two pieces with a space. */
  lemma JoinTwo(before: string, after: string)
    ensures Join(NonEmpty([before, after]), ' ')
      == if before == "" then after else if after == "" then before else before + " " + after
  {
    assert [before, after][1..] == [after];
    if before == "" {
      assert NonEmpty([before, after]) == NonEmpty([after]);
      if after != "" {
        assert NonEmpty([after]) == [after];
      }
    } else if after == "" {
      assert NonEmpty([after]) == [];
      assert NonEmpty([before, after]) == [before];
    } else {
      assert NonEmpty([after]) == [after];
      assert NonEmpty([before, after]) == [before, after];
    }
  }

  /** Building `user_text` from two stripped pieces and stripping it again joins the non-empty
      ones with a single space. */
  lemma UserTextStrip(before: string, after: string)
    requires IsStripped(before) && IsStripped(after)
    ensures Strip(UserText(before, after))
      == if before == "" then after else if after == "" then before else before + " " + after
  {
    if before == "" {
      StripOfStripped(after);
    } else if after == "" {
      StripTrailingBlank(before);
    } else {
      StrippedJoin(before, after);
      StripOfStripped(before + " " + after);
    }
  }

  /** The surrounding words are the stripped text before the link and the stripped text after
      it, joined by one space when both are non-empty, or whichever one is non-empty. */
  lemma SurroundingCases(message: string, m: Links.Match)
    requires m.start <= m.end <= |message|
    ensures var before := Strip(message[..m.start]);
      var after := Strip(message[m.end..]);
      Surrounding(message, m)
      == if before == "" then after else if after == "" then before else before + " " + after
  {
    JoinTwo(Strip(message[..m.start]), Strip(message[m.end..]));
  }

  /** The stripped `user_text` of a message is its surrounding words. */
  lemma UserTextOf(message: string, m: Links.Match)
    requires m.start <= m.end <= |message|
    ensures Strip(UserText(Strip(message[..m.start]), Strip(message[m.end..]))) == Surrounding(message, m)
  {
    StripStripped(message[..m.start]);
    StripStripped(message[m.end..]);
    UserTextStrip(Strip(message[..m.start]), Strip(message[m.end..]));
    SurroundingCases(message, m);
  }

  lemma HeadSplit(head: string, words: string, fixed: string)
    ensures (if words != "" then head + "\n\n" + words else head) + "\n\n" + fixed
      == head + (if words == "" then "" else "\n\n" + words) + "\n\n" + fixed
  {
    if words != "" {
      ConcatAssoc3(head, "\n\n", words);
    }
  }

  /** Every repost opens with the attribution, carries the user's surrounding words after a blank
      line exactly when there are any, and ends with the converted link after a blank line. */
  lemma RepostShape(name: string, message: string, m: Links.Match, fixed: string)
    requires m.start <= m.end <= |message|
    ensures var words := Surrounding(message, m);
      RepostText(name, message, m, fixed)
      == Attribution(name) + (if words == "" then "" else "\n\n" + words) + "\n\n" + fixed
  {
    UserTextOf(message, m);
    HeadSplit(Attribution(name), Surrounding(message, m), fixed);
  }

  /** The link text of a match. */
  function LinkOf(message: string, m: Links.Match): string
    requires m.start <= m.end <= |message|
  {
    message[m.start..m.end]
  }

  /** The conversion `convert` changes the link of match `m`. The scan below is stated for any
      conversion; the bot passes `convert_to_fixupx`. */
  predicate Changed(message: string, m: Links.Match, convert: string -> string)
    requires m.start <= m.end <= |message|
  {
    convert(LinkOf(message, m)) != LinkOf(message, m)
  }

  /** All matches lie inside the message. */
  predicate Inside(message: string, ms: seq<Links.Match>) {
    forall k :: 0 <= k < |ms| ==> ms[k].start <= ms[k].end <= |message|
  }

  /** The index of the first of the matches from `from` on whose link the conversion changes:
      the one match `process_message` acts on. */
  function FirstChanged(message: string, ms: seq<Links.Match>, from: nat, convert: string -> string): (r: Option<nat>)
    requires Inside(message, ms) && from <= |ms|
    decreases |ms| - from
    ensures r.Some? ==> from <= r.value < |ms| && Changed(message, ms[r.value], convert)
    ensures r.Some? ==> forall k :: from <= k < r.value ==> !Changed(message, ms[k], convert)
    ensures r.None? ==> forall k :: from <= k < |ms| ==> !Changed(message, ms[k], convert)
  {
    if from == |ms| then None
    else if Changed(message, ms[from], convert) then Some(from)
    else FirstChanged(message, ms, from + 1, convert)
  }

  /** The matches `finditer` reports lie inside the message. */
  lemma MatchesInside(message: string)
    ensures Inside(message, Links.Matches(message))
  {
  }
}
