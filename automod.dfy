/**
 * The automod listener (src/listeners/automod.js): which messages are
 * screened, the bypass roles, the case-insensitive deny-list search, and the
 * ordered side effects on a hit. The deny-list is a parameter.
 */
module Automod {
  import opened Wrappers

  /** Members holding a role with one of these names are never filtered. */
  const BypassRoles: seq<string> := ["Moderator", "Admin", "Staff"]

  /** The in-channel notice is scheduled for deletion after 10 seconds. */
  const NoticeLifetimeMs: nat := 10000

  /**
   * What the listener reads of a message: the author's bot flag, whether it
   * came from a guild, its content, and the names of the author's roles
   * (None when `message.member` is missing).
   */
  datatype Message = Message(authorIsBot: bool, inGuild: bool, content: string, memberRoles: Option<seq<string>>)

  // ---------------------------------------------------------------------------
  // Matching

  function LowerChar(c: char): char {
    if 'A' <= c <= 'Z' then (c as int + 32) as char else c
  }

  /** `toLowerCase()`, on the letters A-Z. */
  function ToLower(s: string): string {
    if s == [] then [] else [LowerChar(s[0])] + ToLower(s[1..])
  }

  /** `haystack.includes(needle)` */
  predicate Contains(haystack: string, needle: string) {
    exists i :: 0 <= i <= |haystack| - |needle| && needle <= haystack[i..]
  }

  /** A deny-list term hits when the lowercased content contains the lowercased term. */
  predicate Hits(content: string, term: string) {
    Contains(ToLower(content), ToLower(term))
  }

  /** The index of the first term that hits, or |terms| when none does. */
  function FirstHit(content: string, terms: seq<string>): (k: nat)
    ensures k <= |terms|
    ensures forall j :: 0 <= j < k ==> !Hits(content, terms[j])
    ensures k < |terms| ==> Hits(content, terms[k])
  {
    if terms == [] then 0
    else if Hits(content, terms[0]) then 0
    else 1 + FirstHit(content, terms[1..])
  }

  /** `bannedWords.find(word => content.includes(word.toLowerCase()))` */
  function FindTerm(content: string, terms: seq<string>): Option<string> {
    var k := FirstHit(content, terms);
    if k < |terms| then Some(terms[k]) else None
  }

  /** hasBypassRole: a missing member never bypasses. */
  predicate HasBypassRole(memberRoles: Option<seq<string>>) {
    memberRoles.Some? && exists name <- BypassRoles :: name in memberRoles.value
  }

  // ---------------------------------------------------------------------------
  // run

  datatype Verdict = Ignored | Bypassed | Clean | Filtered(term: string)

  /**
   * run: bots, messages outside a guild and empty messages are ignored;
   * then the bypass roles; then the first hitting term, acted on only when
   * it is truthy (a non-empty string).
   */
  function Screen(msg: Message, terms: seq<string>): Verdict {
    if msg.authorIsBot || !msg.inGuild || msg.content == "" then Ignored
    else if HasBypassRole(msg.memberRoles) then Bypassed
    else match FindTerm(msg.content, terms)
      case None => Clean
      case Some(t) => if t == "" then Clean else Filtered(t)
  }

  /** Lowercasing twice is lowercasing once. */
  lemma {:induction false} ToLowerIdempotent(s: string)
    ensures ToLower(ToLower(s)) == ToLower(s)
  {
    if s != [] {
      ToLowerIdempotent(s[1..]);
    }
  }

  /** Matching ignores the case of both the content and the term. */
  lemma HitsIgnoresCase(content: string, term: string)
    ensures Hits(ToLower(content), term) <==> Hits(content, term)
    ensures Hits(content, ToLower(term)) <==> Hits(content, term)
  {
    ToLowerIdempotent(content);
    ToLowerIdempotent(term);
  }

  /**
   * find returns the first term in deny-list order that hits, and nothing
   * exactly when no term hits.
   */
  lemma FindTermSpec(content: string, terms: seq<string>)
    ensures FindTerm(content, terms).None? <==> forall t <- terms :: !Hits(content, t)
    ensures FindTerm(content, terms).Some? ==>
              && FindTerm(content, terms).value in terms
              && Hits(content, FindTerm(content, terms).value)
              && FindTerm(content, terms).value == terms[FirstHit(content, terms)]
              && forall j :: 0 <= j < FirstHit(content, terms) ==> !Hits(content, terms[j])
  {
    if FindTerm(content, terms).None? {
      forall t <- terms ensures !Hits(content, t) {
        var j :| 0 <= j < |terms| && terms[j] == t;
      }
    }
  }

  /**
   * With a deny-list of non-empty terms, a screened message is filtered
   * exactly when some term hits, and the reported term is the first one.
   */
  lemma ScreenSpec(msg: Message, terms: seq<string>)
    requires forall t <- terms :: t != ""
    ensures Screen(msg, terms).Filtered? <==>
              && !msg.authorIsBot && msg.inGuild && msg.content != ""
              && !HasBypassRole(msg.memberRoles)
              && exists t <- terms :: Hits(msg.content, t)
    ensures Screen(msg, terms).Filtered? ==> Screen(msg, terms).term == terms[FirstHit(msg.content, terms)]
  {
    FindTermSpec(msg.content, terms);
  }

  /** A member holding a bypass role is never filtered; a missing member never bypasses. */
  lemma BypassSpec(msg: Message, terms: seq<string>)
    ensures HasBypassRole(msg.memberRoles) ==> !Screen(msg, terms).Filtered?
    ensures msg.memberRoles.None? ==> Screen(msg, terms) != Bypassed
    ensures (msg.memberRoles.Some? && "Moderator" in msg.memberRoles.value &&
             !msg.authorIsBot && msg.inGuild && msg.content != "") ==> Screen(msg, terms) == Bypassed
  {
    if msg.memberRoles.Some? && "Moderator" in msg.memberRoles.value {
      assert BypassRoles[0] == "Moderator";
    }
  }

  /** An upper-case occurrence of a lower-case term is caught and reported. */
  lemma UpperCaseHit()
    ensures Screen(Message(false, true, "SPAM", Some([])), ["spam"]) == Filtered("spam")
  {
    assert Hits("SPAM", "spam") by {
      LowerSpam();
      assert "spam" <= "spam"[0..];
    }
    assert FindTerm("SPAM", ["spam"]) == Some("spam");
    assert !HasBypassRole(Some([]));
  }

  lemma LowerSpam()
    ensures ToLower("SPAM") == "spam" && ToLower("spam") == "spam"
  {
    assert ToLower("M") == "m" && ToLower("m") == "m";
    assert ToLower("AM") == "am" && ToLower("am") == "am";
    assert ToLower("PAM") == "pam" && ToLower("pam") == "pam";
  }

  // ---------------------------------------------------------------------------
  // sendWarning

  datatype Effect = MessageDeleted | DirectMessageSent | ChannelNoticePosted | NoticeDeletionScheduled(delayMs: nat)

  /**
   * What sendWarning does, given the outcomes of its three platform calls:
   * delete the message, then DM the author; if the DM fails, post a channel
   * notice and schedule its deletion. A step that throws ends the sequence.
   */
  function WarningEffects(deleteSucceeds: bool, dmSucceeds: bool, channelSendSucceeds: bool): seq<Effect> {
    if !deleteSucceeds then []
    else if dmSucceeds then [MessageDeleted, DirectMessageSent]
    else if channelSendSucceeds then [MessageDeleted, ChannelNoticePosted, NoticeDeletionScheduled(NoticeLifetimeMs)]
    else [MessageDeleted]
  }

  /**
   * The delete comes first and nothing happens without it; the DM and the
   * channel notice exclude each other; the notice, and only it, is followed
   * by its scheduled deletion.
   */
  lemma WarningEffectsSpec(deleteSucceeds: bool, dmSucceeds: bool, channelSendSucceeds: bool)
    ensures var e := WarningEffects(deleteSucceeds, dmSucceeds, channelSendSucceeds);
            && (e == [] <==> !deleteSucceeds)
            && (deleteSucceeds ==> e[0] == MessageDeleted)
            && (DirectMessageSent in e <==> deleteSucceeds && dmSucceeds)
            && (ChannelNoticePosted in e <==> deleteSucceeds && !dmSucceeds && channelSendSucceeds)
            && (NoticeDeletionScheduled(NoticeLifetimeMs) in e <==> ChannelNoticePosted in e)
            && (DirectMessageSent in e ==> e == [MessageDeleted, DirectMessageSent])
            && (ChannelNoticePosted in e ==>
                  e == [MessageDeleted, ChannelNoticePosted, NoticeDeletionScheduled(NoticeLifetimeMs)])
            && (deleteSucceeds && !dmSucceeds && !channelSendSucceeds ==> e == [MessageDeleted])
  {
  }

  /**
   * sendWarning, step by step. The outer handler only logs, so a step that
   * throws ends the sequence.
   */
  method SendWarning(deleteSucceeds: bool, dmSucceeds: bool, channelSendSucceeds: bool) returns (effects: seq<Effect>)
    ensures effects == WarningEffects(deleteSucceeds, dmSucceeds, channelSendSucceeds)
  {
    effects := [];
    if !deleteSucceeds {
      return;
    }
    effects := effects + [MessageDeleted];
    if dmSucceeds {
      effects := effects + [DirectMessageSent];
    } else {
      if !channelSendSucceeds {
        return;
      }
      effects := effects + [ChannelNoticePosted];
      effects := effects + [NoticeDeletionScheduled(NoticeLifetimeMs)];
    }
  }

  /** The listener as a whole: screen the message, and act only on a hit. */
  method OnMessage(msg: Message, terms: seq<string>, deleteSucceeds: bool, dmSucceeds: bool, channelSendSucceeds: bool)
    returns (verdict: Verdict, effects: seq<Effect>)
    ensures verdict == Screen(msg, terms)
    ensures !verdict.Filtered? ==> effects == []
    ensures verdict.Filtered? ==> effects == WarningEffects(deleteSucceeds, dmSucceeds, channelSendSucceeds)
    ensures effects != [] ==> effects[0] == MessageDeleted
  {
    verdict := Screen(msg, terms);
    effects := [];
    WarningEffectsSpec(deleteSucceeds, dmSucceeds, channelSendSucceeds);
    if verdict.Filtered? {
      effects := SendWarning(deleteSucceeds, dmSucceeds, channelSendSucceeds);
    }
  }
}
