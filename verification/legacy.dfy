/**
 The pure logic of the legacy Python poller (selfoss.py): choosing the items
 newer than the last run and the timestamp to persist, and the inline
 formatting of each item (channel name, blank-line collapse, truncation).
 Timestamps are integers; the "now minus three years" baseline is a parameter.
 */
module Legacy {
  import opened Wrappers
  import opened Text
  import Formatting

  /** A fetched feed entry: only the fields the poller's logic reads. */
  datatype FeedEntry = FeedEntry(timestamp: int, sourceTitle: string, content: string)

  /** The poller's own message limit, `max_message_chars`. */
  const MaxMessageChars: nat := 2000

  /** The entries strictly newer than `oldPubDate`, in their original order. */
  function After(entries: seq<FeedEntry>, oldPubDate: int): seq<FeedEntry> {
    if |entries| == 0 then []
    else (if entries[0].timestamp > oldPubDate then [entries[0]] else []) + After(entries[1..], oldPubDate)
  }

  /** Filtering distributes over concatenation, so it keeps the original order. */
  lemma {:induction false} AfterConcat(a: seq<FeedEntry>, b: seq<FeedEntry>, oldPubDate: int)
    ensures After(a + b, oldPubDate) == After(a, oldPubDate) + After(b, oldPubDate)
    decreases |a|
  {
    if |a| == 0 {
      assert a + b == b;
    } else {
      assert (a + b)[1..] == a[1..] + b;
      AfterConcat(a[1..], b, oldPubDate);
    }
  }

  /** An entry is kept exactly when it is one of the entries and is newer than `oldPubDate`. */
  lemma {:induction false} AfterMembers(entries: seq<FeedEntry>, oldPubDate: int, e: FeedEntry)
    ensures e in After(entries, oldPubDate) <==> e in entries && e.timestamp > oldPubDate
    decreases |entries|
  {
    if |entries| > 0 {
      AfterMembers(entries[1..], oldPubDate, e);
      assert entries == [entries[0]] + entries[1..];
    }
  }

  /**
   `latest` is a correct running maximum: at least the baseline and every
   timestamp seen, and equal to the baseline or one of them.
   */
  ghost predicate IsLatest(latest: int, entries: seq<FeedEntry>, baseline: int) {
    && latest >= baseline
    && (forall e :: e in entries ==> latest >= e.timestamp)
    && (latest == baseline || exists e :: e in entries && latest == e.timestamp)
  }

  function Max(a: int, b: int): int {
    if a >= b then a else b
  }

  /**
   `new_items`: the entries newer than the last run, in order, and the
   timestamp written to the last-update file, which happens exactly when some
   entry is new. The written value is the maximum over the baseline and all
   entries, new or not, and so lies strictly after the last run.
   */
  method NewItems(entries: seq<FeedEntry>, oldPubDate: int, baseline: int)
    returns (items: seq<FeedEntry>, written: Option<int>)
    ensures items == After(entries, oldPubDate)
    ensures written.Some? <==> |items| > 0
    ensures written.Some? ==> IsLatest(written.value, entries, baseline)
    ensures written.Some? ==> written.value > oldPubDate
  {
    items := [];
    var latest := baseline;
    var k := 0;
    while k < |entries|
      invariant 0 <= k <= |entries|
      invariant items == After(entries[..k], oldPubDate)
      invariant IsLatest(latest, entries[..k], baseline)
    {
      var entry := entries[k];
      if entry.timestamp > oldPubDate {
        items := items + [entry];
      }
      AfterConcat(entries[..k], [entry], oldPubDate);
      assert entries[..k + 1] == entries[..k] + [entry];
      latest := Max(latest, entry.timestamp);
      k := k + 1;
    }
    assert entries[..k] == entries;
    if |items| > 0 {
      AfterMembers(entries, oldPubDate, items[0]);
      written := Some(latest);
    } else {
      written := None;
    }
  }

  /** The poller's channel name: lowercase first, then spaces to hyphens; periods stay. */
  function ChannelName(source: string): (name: string)
    ensures |name| == |source|
    ensures ' ' !in name
    ensures forall i :: 0 <= i < |source| && source[i] == ' ' ==> name[i] == '-'
    ensures forall i :: 0 <= i < |source| ==> (name[i] == '.' <==> source[i] == '.')
    ensures forall i :: 0 <= i < |source| && source[i] != ' ' ==> name[i] == LowerChar(source[i])
  {
    ReplaceChar(Lower(source), ' ', '-')
  }

  /** The two bridges name a channel alike exactly when the title has no period. */
  lemma ChannelNamesAgree(source: string)
    ensures ChannelName(source) == Formatting.ChannelName(source) <==> '.' !in source
  {
    var py, rs := ChannelName(source), Formatting.ChannelName(source);
    if '.' in source {
      var i :| 0 <= i < |source| && source[i] == '.';
      assert py[i] != rs[i];
    } else {
      forall i | 0 <= i < |source|
        ensures py[i] == rs[i]
      {
      }
    }
  }

  /** `str.replace('\n\n', '\n')`: non-overlapping pairs of newlines, scanned left to right. */
  function CollapseNewlines(s: string): string
    decreases |s|
  {
    if |s| >= 2 && s[0] == '\n' && s[1] == '\n' then "\n" + CollapseNewlines(s[2..])
    else if |s| == 0 then ""
    else [s[0]] + CollapseNewlines(s[1..])
  }

  /** How many pairs the scan replaces. */
  function Replacements(s: string): nat
    decreases |s|
  {
    if |s| >= 2 && s[0] == '\n' && s[1] == '\n' then 1 + Replacements(s[2..])
    else if |s| == 0 then 0
    else Replacements(s[1..])
  }

  /** Each replacement shortens the text by exactly one character. */
  lemma {:induction false} CollapseLength(s: string)
    ensures |CollapseNewlines(s)| == |s| - Replacements(s)
    ensures 2 * Replacements(s) <= |s|
    decreases |s|
  {
    if |s| >= 2 && s[0] == '\n' && s[1] == '\n' {
      CollapseLength(s[2..]);
    } else if |s| > 0 {
      CollapseLength(s[1..]);
    }
  }

  /** `s` holds two newlines in a row somewhere. */
  predicate HasBlankLine(s: string) {
    exists i :: 0 <= i < |s| - 1 && s[i] == '\n' && s[i + 1] == '\n'
  }

  /** The collapse changes the text exactly when it holds a pair of newlines. */
  lemma {:induction false} CollapseChangesIffBlankLine(s: string)
    ensures CollapseNewlines(s) == s <==> !HasBlankLine(s)
    decreases |s|
  {
    CollapseLength(s);
    if |s| >= 2 && s[0] == '\n' && s[1] == '\n' {
      assert |CollapseNewlines(s)| < |s|;
    } else if |s| > 0 {
      CollapseChangesIffBlankLine(s[1..]);
      if HasBlankLine(s) {
        var i :| 0 <= i < |s| - 1 && s[i] == '\n' && s[i + 1] == '\n';
        assert i > 0;
        assert s[1..][i - 1] == '\n' && s[1..][i] == '\n';
      }
      if HasBlankLine(s[1..]) {
        var i :| 0 <= i < |s[1..]| - 1 && s[1..][i] == '\n' && s[1..][i + 1] == '\n';
        assert s[i + 1] == '\n' && s[i + 2] == '\n';
      }
      assert s == [s[0]] + s[1..];
    }
  }

  /** The characters of `s` that are not newlines, in order. */
  function WithoutNewlines(s: string): string
    decreases |s|
  {
    if |s| == 0 then "" else (if s[0] == '\n' then "" else [s[0]]) + WithoutNewlines(s[1..])
  }

  /** The collapse removes only newlines: every other character survives, in order. */
  lemma {:induction false} CollapseKeepsText(s: string)
    ensures WithoutNewlines(CollapseNewlines(s)) == WithoutNewlines(s)
    decreases |s|
  {
    if |s| >= 2 && s[0] == '\n' && s[1] == '\n' {
      CollapseKeepsText(s[2..]);
      var c := CollapseNewlines(s[2..]);
      assert ("\n" + c)[1..] == c;
      assert s[1..][1..] == s[2..];
    } else if |s| > 0 {
      CollapseKeepsText(s[1..]);
      var c := CollapseNewlines(s[1..]);
      assert ([s[0]] + c)[1..] == c;
    }
  }

  /** `n` newlines in a row. */
  function Newlines(n: nat): string
    ensures |Newlines(n)| == n
  {
    if n == 0 then "" else "\n" + Newlines(n - 1)
  }

  /**
   A run of `n` newlines becomes a run of `n` halved rounded up, so four blank
   newlines still leave a pair behind: the collapse is not idempotent.
   */
  lemma {:induction false} CollapseRun(n: nat)
    ensures CollapseNewlines(Newlines(n)) == Newlines((n + 1) / 2)
    decreases n
  {
    if n >= 2 {
      var s := Newlines(n);
      assert s == "\n" + Newlines(n - 1);
      assert Newlines(n - 1) == "\n" + Newlines(n - 2);
      assert s[0] == '\n' && s[1] == '\n';
      assert s[2..] == Newlines(n - 2);
      CollapseRun(n - 2);
    } else if n == 1 {
      assert Newlines(1)[1..] == "";
    }
  }

  /**
   The poller's truncation: text over the limit is cut to one character less
   than the limit, shorter text is left whole.
   */
  function Truncate(s: string): (r: string)
    ensures |r| <= |s| && r == s[..|r|]
    ensures |r| <= MaxMessageChars
    ensures |s| <= MaxMessageChars ==> r == s
    ensures |s| > MaxMessageChars ==> |r| == MaxMessageChars - 1
  {
    if |s| > MaxMessageChars then s[..MaxMessageChars - 1] else s
  }

  /**
   The cut is not monotone: a text of exactly the limit keeps all its
   characters while one character more loses two.
   */
  lemma TruncateDropsOneMore(s: string)
    requires |s| == MaxMessageChars + 1
    ensures |Truncate(s[..MaxMessageChars])| == MaxMessageChars
    ensures |Truncate(s)| == MaxMessageChars - 1
  {
  }

  /** The poller keeps one character fewer than the Rust bridge whenever it cuts. */
  lemma TruncateAgainstRust(s: string)
    ensures |s| <= MaxMessageChars ==> Truncate(s) == Formatting.Truncate(s, Formatting.MaxMessageChars)
    ensures |s| > MaxMessageChars ==> Truncate(s) == Formatting.Truncate(s, Formatting.MaxMessageChars)[..MaxMessageChars - 1]
  {
  }

  /** The embed description of an entry: extracted text, blank lines collapsed, then cut. */
  function MessageBody(content: string, getText: string -> string): (body: string)
    ensures |body| <= MaxMessageChars
  {
    Truncate(CollapseNewlines(getText(content)))
  }
}
