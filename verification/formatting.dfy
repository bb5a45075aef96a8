/**
 The feed item and the two strings derived from it for the chat platform
 (src/selfoss/models.rs): the destination channel name and the message body.
 Strings are sequences of Unicode scalar values, so "at most N characters,
 never splitting a character" is a statement about sequence positions.
 */
module Formatting {
  import opened Text

  /** Selfoss item ids are unsigned 64-bit integers. */
  newtype u64 = x: int | 0 <= x < 0x1_0000_0000_0000_0000

  /** One unread feed item; the timestamp is not used by the bridge and is left out. */
  datatype Item = Item(title: string, sourceTitle: string, content: string, id: u64)

  /** The longest message body the bridge sends, in characters. */
  const MaxMessageChars: nat := 2000

  function Min(a: nat, b: nat): nat {
    if a <= b then a else b
  }

  /**
   Cuts `s` down to at most `maxChars` characters. The source asks for the
   position of character number `maxChars`; when there is none the string is
   short enough and is returned whole, otherwise everything before it is kept.
   */
  function Truncate(s: string, maxChars: nat): (r: string)
    ensures |r| == Min(|s|, maxChars)
    ensures r == s[..|r|]
    ensures |s| <= maxChars ==> r == s
  {
    if maxChars < |s| then s[..maxChars] else s
  }

  /** Truncating a second time changes nothing. */
  lemma TruncateIdempotent(s: string, maxChars: nat)
    ensures Truncate(Truncate(s, maxChars), maxChars) == Truncate(s, maxChars)
  {
  }

  /** What one source-title character becomes in a channel name. */
  function NameChar(c: char): char {
    if c == ' ' || c == '.' then '-' else LowerChar(c)
  }

  /**
   The channel an item is posted to: spaces, then periods, become hyphens, and
   the result is lowercased (ASCII only).
   */
  function ChannelName(sourceTitle: string): (name: string)
    ensures |name| == |sourceTitle|
    ensures forall i :: 0 <= i < |name| ==> name[i] == NameChar(sourceTitle[i])
    ensures ' ' !in name && '.' !in name
  {
    Lower(ReplaceChar(ReplaceChar(sourceTitle, ' ', '-'), '.', '-'))
  }

  /** A channel name is its own channel name: re-deriving it changes nothing. */
  lemma ChannelNameIdempotent(sourceTitle: string)
    ensures ChannelName(ChannelName(sourceTitle)) == ChannelName(sourceTitle)
  {
    var name := ChannelName(sourceTitle);
    var again := ChannelName(name);
    forall i | 0 <= i < |name|
      ensures again[i] == name[i]
    {
      assert name[i] == NameChar(sourceTitle[i]);
    }
  }

  /**
   Two source titles share a channel exactly when they have the same length and
   agree position by position up to case and up to space/period/hyphen.
   */
  lemma SameChannelName(a: string, b: string)
    ensures ChannelName(a) == ChannelName(b) <==>
              |a| == |b| && forall i :: 0 <= i < |a| ==> NameChar(a[i]) == NameChar(b[i])
  {
    if |a| == |b| && forall i :: 0 <= i < |a| ==> NameChar(a[i]) == NameChar(b[i]) {
      var na, nb := ChannelName(a), ChannelName(b);
      forall i | 0 <= i < |na|
        ensures na[i] == nb[i]
      {
      }
    }
  }

  /**
   The message body: the content cut to the platform limit, then reduced to its
   text by `extractText`, which stands for the HTML fragment parser.
   */
  function MessageContent(content: string, extractText: string -> string): (text: string)
  {
    extractText(Truncate(content, MaxMessageChars))
  }

  /** The message depends only on the first MaxMessageChars characters of the content. */
  lemma MessageDependsOnPrefix(a: string, b: string, extractText: string -> string)
    requires a[..Min(|a|, MaxMessageChars)] == b[..Min(|b|, MaxMessageChars)]
    ensures MessageContent(a, extractText) == MessageContent(b, extractText)
  {
  }

  /** Whatever follows a full-length prefix never reaches the message. */
  lemma MessageIgnoresTail(s: string, tail: string, extractText: string -> string)
    requires |s| >= MaxMessageChars
    ensures MessageContent(s + tail, extractText) == MessageContent(s, extractText)
  {
    assert (s + tail)[..MaxMessageChars] == s[..MaxMessageChars];
  }

  /**
   The message stays within the platform limit whenever the extractor never
   lengthens its input: the limit is enforced by cutting before extraction.
   */
  lemma MessageWithinLimit(content: string, extractText: string -> string)
    requires forall s :: |extractText(s)| <= |s|
    ensures |MessageContent(content, extractText)| <= MaxMessageChars
  {
  }
}
