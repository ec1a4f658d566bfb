/**
 * The text side of the backfill in bot.py: cleaning a description's HTML
 * (`re.sub(r'<[^>]+>', '', …)` then `' '.join(….split())`) and the
 * Markdown message `send_message` posts, as a photo caption when there is
 * a first image and as a plain message otherwise.
 */
module LegacyMessage {
  import opened Wrappers
  import opened Text
  import opened Gallery

  // ------------------------------------------------------------ characters

  /** The index of the first `c` in `s` at or after `i`. */
  function FirstOf(s: string, c: char, i: nat): (r: Option<nat>)
    ensures r.Some? ==> i <= r.value < |s| && s[r.value] == c
    ensures r.Some? ==> forall k :: i <= k < r.value ==> s[k] != c
    ensures r.None? ==> forall k :: i <= k < |s| ==> s[k] != c
    decreases |s| - i
  {
    if i >= |s| then None
    else if s[i] == c then Some(i)
    else FirstOf(s, c, i + 1)
  }

  // ------------------------------------------------------------ tags

  /** Where the pattern `<[^>]+>` ends when it is tried at the start of `s`
      (which holds a `<`): at the first `>` after it, provided at least one
      other character lies in between. */
  function TagEnd(s: string): Option<nat>
    requires |s| > 0
  {
    var j := FirstOf(s, '>', 1);
    if j.Some? && j.value >= 2 then j else None
  }

  /** `re.sub(r'<[^>]+>', '', s)`: scanning left to right, each match is
      dropped and every other character kept. */
  function StripTags(s: string): (r: string)
    ensures |r| <= |s|
    decreases |s|
  {
    if s == [] then []
    else if s[0] == '<' && TagEnd(s).Some? then StripTags(s[TagEnd(s).value + 1..])
    else [s[0]] + StripTags(s[1..])
  }

  /** The pattern matches nowhere in `s`. */
  predicate TagFree(s: string)
    decreases |s|
  {
    s == [] || ((s[0] == '<' ==> TagEnd(s).None?) && TagFree(s[1..]))
  }

  /** A text with no `>` has no tag, and stripping leaves it alone. */
  lemma {:induction false} NoCloseUnchanged(s: string)
    requires forall k :: 0 <= k < |s| ==> s[k] != '>'
    ensures StripTags(s) == s && TagFree(s)
    decreases |s|
  {
    if s != [] {
      NoCloseUnchanged(s[1..]);
    }
  }

  /** Stripping leaves no tag behind: the substitution is a single pass, yet
      no match can be formed from what it keeps. */
  lemma {:induction false} StripTagsTagFree(s: string)
    ensures TagFree(StripTags(s))
    decreases |s|
  {
    if s == [] {
    } else if s[0] == '<' && TagEnd(s).Some? {
      StripTagsTagFree(s[TagEnd(s).value + 1..]);
    } else {
      var rest := StripTags(s[1..]);
      var r := [s[0]] + rest;
      StripTagsTagFree(s[1..]);
      assert r[1..] == rest;
      if s[0] == '<' {
        var j := FirstOf(s, '>', 1);
        if j.None? {
          NoCloseUnchanged(s[1..]);
          assert r == s;
        } else {
          assert j.value == 1;
          assert s[1..][0] == '>';
          assert rest == [s[1]] + StripTags(s[2..]) by {
            assert s[1..][1..] == s[2..];
          }
          assert r[1] == '>';
          assert FirstOf(r, '>', 1) == Some(1);
        }
      }
    }
  }

  /** Stripping changes a text exactly when it holds a tag. */
  lemma {:induction false} StripTagsFixed(s: string)
    ensures StripTags(s) == s <==> TagFree(s)
    decreases |s|
  {
    if s != [] {
      StripTagsFixed(s[1..]);
      if s[0] == '<' && TagEnd(s).Some? {
        assert |StripTags(s)| < |s|;
      } else {
        assert StripTags(s)[1..] == StripTags(s[1..]);
        assert s == [s[0]] + s[1..];
      }
    }
  }

  /** Stripping twice is stripping once. */
  lemma StripTagsIdempotent(s: string)
    ensures StripTags(StripTags(s)) == StripTags(s)
  {
    StripTagsTagFree(s);
    StripTagsFixed(StripTags(s));
  }

  // ------------------------------------------------------------ whitespace

  /** `' '.join(s.split())`. */
  function CollapseWhitespace(s: string): string {
    Join(" ", Split(s))
  }

  /** Whitespace occurs only as single spaces between two other
      characters. */
  predicate SingleSpaced(r: string) {
    forall i :: 0 <= i < |r| && IsSpace(r[i]) ==>
      r[i] == ' ' && 0 < i < |r| - 1 && !IsSpace(r[i - 1]) && !IsSpace(r[i + 1])
  }

  lemma {:induction false} JoinSingleSpaced(words: seq<string>)
    requires forall i :: 0 <= i < |words| ==> |words[i]| > 0 && NoSpace(words[i])
    ensures SingleSpaced(Join(" ", words))
    decreases |words|
  {
    if |words| > 1 {
      var w, tail := words[0], words[1..];
      var t := Join(" ", tail);
      JoinSingleSpaced(tail);
      assert forall i :: 0 <= i < |tail| ==> Trimmed(tail[i]);
      JoinTrimmed(tail);
      JoinNonEmpty(tail);
      var r := Join(" ", words);
      assert r == w + " " + t;
      forall i | 0 <= i < |r| && IsSpace(r[i])
        ensures r[i] == ' ' && 0 < i < |r| - 1 && !IsSpace(r[i - 1]) && !IsSpace(r[i + 1])
      {
        if i == |w| {
          assert r[i - 1] == w[|w| - 1];
          assert r[i + 1] == t[0];
        } else if i > |w| {
          assert r[i] == t[i - |w| - 1];
          if i - |w| - 1 > 0 {
            assert r[i - 1] == t[i - |w| - 2];
          }
          assert r[i + 1] == t[i - |w|];
        }
      }
    }
  }

  lemma {:induction false} JoinNonEmpty(words: seq<string>)
    requires |words| > 0 && forall i :: 0 <= i < |words| ==> |words[i]| > 0
    ensures |Join(" ", words)| > 0
    decreases |words|
  {
    if |words| > 1 {
      JoinNonEmpty(words[1..]);
    }
  }

  /** Collapsing keeps the words and every visible character, leaves no
      whitespace at either end and only single spaces inside, and collapsing
      again changes nothing. */
  lemma CollapseSpec(s: string)
    ensures var r := CollapseWhitespace(s);
      Split(r) == Split(s)
      && Visible(r) == Visible(s)
      && SingleSpaced(r)
      && CollapseWhitespace(r) == r
  {
    var words := Split(s);
    SplitWords(s);
    SplitJoin(words);
    JoinSingleSpaced(words);
    assert forall i :: 0 <= i < |words| ==> Trimmed(words[i]);
    JoinTrimmed(words);
    SplitKeepsVisible(s);
    VisibleOfWord(Visible(s));
  }

  /** The description text bot.py stores: the inner HTML stripped, its tags
      removed, its whitespace collapsed. */
  function CleanDescription(html: string): string {
    CollapseWhitespace(StripTags(Strip(html)))
  }

  /** The stored description holds the words of the tag-free text, single
      spaced, and cleaning it again gives it back. */
  lemma CleanDescriptionSpec(html: string)
    ensures var text := StripTags(Strip(html));
      var r := CleanDescription(html);
      Split(r) == Split(text) && Visible(r) == Visible(text) && SingleSpaced(r)
  {
    CollapseSpec(StripTags(Strip(html)));
  }

  /** A page whose description block holds only whitespace stores `''`. */
  lemma BlankHtmlCleansToEmpty(html: string)
    requires forall i :: 0 <= i < |html| ==> IsSpace(html[i])
    ensures CleanDescription(html) == ""
  {
    VisibleOfSpaces(html);
  }

  // ------------------------------------------------------------ message

  /** A value in an f-string: `None` prints as `None`. */
  function Shown(v: Option<string>): string {
    if v.Some? then v.value else "None"
  }

  const DescriptionLimit: int := 500

  /** The lines of the Markdown text of `send_message`: name, district, a
      blank line, price, at most 500 characters of description, and the
      link. */
  function MessageLineList(name: Option<string>, district: Option<string>, price: Option<string>,
                           description: string, link: string): seq<string>
  {
    ["🏠 *" + Shown(name) + "*",
     "📍 *Район*: " + Shown(district),
     "",
     "💰 *Ціна*: " + Shown(price),
     "📝 *Опис*: " + SliceTo(description, DescriptionLimit),
     "🔗 *Посилання*: " + link]
  }

  /** The f-string of `send_message`, its pieces separated by line
      breaks. */
  function MessageText(name: Option<string>, district: Option<string>, price: Option<string>,
                       description: string, link: string): string
  {
    Join("\n", MessageLineList(name, district, price, description, link))
  }

  predicate OneLine(s: string) {
    forall k :: 0 <= k < |s| ==> s[k] != '\n'
  }

  /** `s.split('\n')`. */
  function Lines(s: string): (r: seq<string>)
    ensures |r| > 0
    decreases |s|
  {
    var j := FirstOf(s, '\n', 0);
    if j.None? then [s] else [s[..j.value]] + Lines(s[j.value + 1..])
  }

  lemma LinesCons(a: string, b: string)
    requires OneLine(a)
    ensures Lines(a + "\n" + b) == [a] + Lines(b)
  {
    var s := a + "\n" + b;
    assert s[|a|] == '\n';
    assert FirstOf(s, '\n', 0) == Some(|a|);
    assert s[..|a|] == a;
    assert s[|a| + 1..] == b;
  }

  lemma LinesOfOne(a: string)
    requires OneLine(a)
    ensures Lines(a) == [a]
  {
  }

  /** Splitting on line breaks undoes joining lines that hold none. */
  lemma {:induction false} LinesJoin(ls: seq<string>)
    requires |ls| > 0 && forall i :: 0 <= i < |ls| ==> OneLine(ls[i])
    ensures Lines(Join("\n", ls)) == ls
    decreases |ls|
  {
    if |ls| == 1 {
      LinesOfOne(ls[0]);
    } else {
      LinesJoin(ls[1..]);
      LinesCons(ls[0], Join("\n", ls[1..]));
    }
  }

  /** When no field holds a line break, the message is six lines: each
      field can be read back from its own line, the description cut to its
      first 500 characters. */
  lemma MessageLines(name: Option<string>, district: Option<string>, price: Option<string>,
                     description: string, link: string)
    requires OneLine(Shown(name)) && OneLine(Shown(district)) && OneLine(Shown(price))
    requires OneLine(description) && OneLine(link)
    ensures var ls := Lines(MessageText(name, district, price, description, link));
      |ls| == 6 && ls[2] == ""
      && ls[0] == "🏠 *" + Shown(name) + "*"
      && ls[1] == "📍 *Район*: " + Shown(district)
      && ls[3] == "💰 *Ціна*: " + Shown(price)
      && ls[4] == "📝 *Опис*: " + SliceTo(description, DescriptionLimit)
      && ls[5] == "🔗 *Посилання*: " + link
    ensures |SliceTo(description, DescriptionLimit)| <= DescriptionLimit
  {
    var ls := MessageLineList(name, district, price, description, link);
    var cut := SliceTo(description, DescriptionLimit);
    assert OneLine(ls[4]) by {
      assert forall k :: 0 <= k < |cut| ==> cut[k] == description[k];
    }
    assert forall i :: 0 <= i < |ls| ==> OneLine(ls[i]);
    LinesJoin(ls);
  }

  /** What `send_message` hands to Telegram. */
  datatype Delivery =
    | Photo(photoUrl: string, caption: string)
    | Plain(text: string)

  /** A photo with the message as caption when the first image URL is
      truthy (present and not empty), a plain message otherwise. */
  function DeliveryOf(message: string, firstImage: Option<string>): Delivery {
    if firstImage.Some? && firstImage.value != "" then Photo(firstImage.value, message)
    else Plain(message)
  }

  function Body(d: Delivery): string {
    if d.Photo? then d.caption else d.text
  }
}
