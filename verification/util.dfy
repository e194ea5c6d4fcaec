/** The pure data shaping of src/util.js: the bad-word screen, `arrayToMap`, the extraction of news
    from the parsed RSS feed, and the canteen line filter. */
module Util {
  import opened Wrappers
  import opened Strings

  // ----- checkForBadWords

  /** Some word of `words` is matched by `pattern`: the inner `forEach`, which sets the flag on every
      match and never stops early. `matches(pattern, word)` stands for
      `new RegExp(pattern, "i").test(word)`. */
  function AnyWordMatches(pattern: string, words: seq<string>, matches: (string, string) -> bool): (r: bool)
    ensures r <==> exists j :: 0 <= j < |words| && matches(pattern, words[j])
    decreases |words|
  {
    if words == [] then false
    else
      var rest := AnyWordMatches(pattern, words[1..], matches);
      assert forall j :: 1 <= j < |words| ==> words[j] == words[1..][j - 1];
      matches(pattern, words[0]) || rest
  }

  /** The outer `reduce` over the bad-word list, from accumulator `acc`: once true it stays true. */
  function ScreenFrom(badWords: seq<string>, words: seq<string>, matches: (string, string) -> bool, acc: bool): (r: bool)
    ensures r <==> acc || exists i, j :: 0 <= i < |badWords| && 0 <= j < |words| && matches(badWords[i], words[j])
    decreases |badWords|
  {
    if badWords == [] then acc
    else
      var next := if acc then true else AnyWordMatches(badWords[0], words, matches);
      var r := ScreenFrom(badWords[1..], words, matches, next);
      assert forall i :: 1 <= i < |badWords| ==> badWords[i] == badWords[1..][i - 1];
      r
  }

  /** The words of a subject: `subject.split(" ")`. */
  function Words(subject: string): seq<string> {
    Split(subject, ' ')
  }

  /** `checkForBadWords(subject)`: true iff some bad-word pattern matches some word of the subject
      split at single spaces. An empty bad-word list condemns nothing. */
  function CheckForBadWords(subject: string, badWords: seq<string>, matches: (string, string) -> bool): (r: bool)
    ensures r <==> exists i, j :: 0 <= i < |badWords| && 0 <= j < |Words(subject)|
                                 && matches(badWords[i], Words(subject)[j])
    ensures badWords == [] ==> !r
  {
    ScreenFrom(badWords, Words(subject), matches, false)
  }

  /** A single offending word condemns a subject of words joined by single spaces, wherever the
      word stands. */
  lemma OneBadWordCondemns(words: seq<string>, badWords: seq<string>, matches: (string, string) -> bool,
                           j: nat, i: nat)
    requires forall n :: 0 <= n < |words| ==> ' ' !in words[n]
    requires j < |words| && i < |badWords| && matches(badWords[i], words[j])
    ensures CheckForBadWords(Join(words, ' '), badWords, matches)
  {
    SplitJoin(words, ' ');
    assert Words(Join(words, ' '))[j] == words[j];
  }

  // ----- arrayToMap

  /** Element `i` is the last one with its key. */
  predicate IsLastWithKey<K(==), V>(xs: seq<V>, key: V -> K, i: int) {
    0 <= i < |xs| && forall j :: i < j < |xs| ==> key(xs[j]) != key(xs[i])
  }

  /** The keys of the elements. */
  function KeysOf<K(==), V>(xs: seq<V>, key: V -> K): set<K> {
    set i | 0 <= i < |xs| :: key(xs[i])
  }

  /** `arrayToMap(array, key)`: every element filed under its key, in array order, so that a later
      element overwrites an earlier one with the same key. */
  function ArrayToMap<K(==), V>(xs: seq<V>, key: V -> K): (m: map<K, V>)
    ensures forall k :: k in m ==> key(m[k]) == k && m[k] in xs
    decreases |xs|
  {
    if xs == [] then map[]
    else
      var init := xs[..|xs| - 1];
      assert forall v :: v in init ==> v in xs;
      ArrayToMap(init, key)[key(xs[|xs| - 1]) := xs[|xs| - 1]]
  }

  /** The map has exactly the keys of the elements. */
  lemma {:induction false} ArrayToMapKeys<K, V>(xs: seq<V>, key: V -> K)
    ensures ArrayToMap(xs, key).Keys == KeysOf(xs, key)
    decreases |xs|
  {
    if xs != [] {
      var init, last := xs[..|xs| - 1], xs[|xs| - 1];
      ArrayToMapKeys(init, key);
      assert forall i :: 0 <= i < |init| ==> init[i] == xs[i];
      assert KeysOf(xs, key) == KeysOf(init, key) + {key(last)};
    }
  }

  /** When keys repeat, the last element with the key wins. */
  lemma {:induction false} ArrayToMapLastWins<K, V>(xs: seq<V>, key: V -> K, i: int)
    requires IsLastWithKey(xs, key, i)
    ensures key(xs[i]) in ArrayToMap(xs, key) && ArrayToMap(xs, key)[key(xs[i])] == xs[i]
    decreases |xs|
  {
    var init, last := xs[..|xs| - 1], xs[|xs| - 1];
    if i < |xs| - 1 {
      assert key(last) != key(xs[i]);
      assert IsLastWithKey(init, key, i) by {
        assert forall j :: 0 <= j < |init| ==> init[j] == xs[j];
      }
      ArrayToMapLastWins(init, key, i);
    }
  }

  // ----- _extractNewsFromRssFeed

  /** An RSS item as the XML parser delivers it: every child element is a list of its texts, and a
      missing element is an empty list here. */
  datatype RssItem = RssItem(title: seq<string>, description: seq<string>)

  datatype News = News(title: string, content: string)

  /** The characters `.` of a JavaScript regular expression does not match. */
  predicate IsLineTerminator(c: char) {
    c == '\n' || c == '\r' || c == '\U{2028}' || c == '\U{2029}'
  }

  /** The length of the shortest prefix of `t` that ends in `>` and holds no line terminator: what
      `.*?>` matches right after a `<`; `None` when there is no such prefix. */
  function TagLength(t: string): (r: Option<nat>)
    ensures r.Some? ==> 1 <= r.value <= |t| && t[r.value - 1] == '>'
    ensures r.Some? ==> forall k :: 0 <= k < r.value ==> !IsLineTerminator(t[k])
    ensures r.Some? ==> forall k :: 0 <= k < r.value - 1 ==> t[k] != '>'
    ensures r.None? ==> UnclosedOnFirstLine(t)
    decreases |t|
  {
    if |t| == 0 then None
    else if t[0] == '>' then Some(1)
    else if IsLineTerminator(t[0]) then
      UnclosedAfterBreak(t);
      None
    else
      assert forall k :: 1 <= k < |t| ==> t[k] == t[1..][k - 1];
      match TagLength(t[1..])
      case None =>
        UnclosedTail(t);
        None
      case Some(n) => Some(n + 1)
  }

  /** A text that starts with a line terminator closes no tag on its first line. */
  lemma UnclosedAfterBreak(t: string)
    requires |t| > 0 && IsLineTerminator(t[0])
    ensures UnclosedOnFirstLine(t)
  {
    forall k | 0 <= k < |t| && t[k] == '>' ensures BreakBetween(t, -1, k) {
      assert -1 < 0 < k;
    }
  }

  /** A character other than `>` in front keeps the first line free of `>`. */
  lemma UnclosedTail(t: string)
    requires |t| > 0 && t[0] != '>' && UnclosedOnFirstLine(t[1..])
    ensures UnclosedOnFirstLine(t)
  {
    forall k | 0 <= k < |t| && t[k] == '>' ensures BreakBetween(t, -1, k) {
      assert t[1..][k - 1] == t[k];
      var j :| -1 < j < k - 1 && 0 <= j < |t[1..]| && IsLineTerminator(t[1..][j]);
      assert t[j + 1] == t[1..][j];
    }
  }

  /** A line terminator lies strictly between positions `i` and `k` of `r`. */
  predicate BreakBetween(r: string, i: int, k: int) {
    exists j :: i < j < k && 0 <= j < |r| && IsLineTerminator(r[j])
  }

  /** Every `>` of `t` comes after a line terminator. */
  predicate UnclosedOnFirstLine(t: string) {
    forall k :: 0 <= k < |t| && t[k] == '>' ==> BreakBetween(t, -1, k)
  }

  /** No `<` of `r` starts a tag: between any `<` and a later `>` lies a line terminator. */
  predicate TagFree(r: string) {
    forall i, k :: 0 <= i < k < |r| && r[i] == '<' && r[k] == '>' ==> BreakBetween(r, i, k)
  }

  /** A break in `t` is a break one position further on in `[c] + t`. */
  lemma BreakCons(c: char, t: string, i: int, k: int)
    requires BreakBetween(t, i, k)
    ensures BreakBetween([c] + t, i + 1, k + 1)
  {
    var j :| i < j < k && 0 <= j < |t| && IsLineTerminator(t[j]);
    assert ([c] + t)[j + 1] == t[j];
  }

  /** A character in front of a tag-free text keeps it tag-free unless it opens a tag that the text
      closes on the same line. */
  lemma TagFreeCons(c: char, t: string)
    requires TagFree(t)
    requires c == '<' ==> UnclosedOnFirstLine(t)
    ensures TagFree([c] + t)
  {
    var r := [c] + t;
    forall i, k | 0 <= i < k < |r| && r[i] == '<' && r[k] == '>'
      ensures BreakBetween(r, i, k)
    {
      assert r[k] == t[k - 1];
      if i == 0 {
        assert BreakBetween(t, -1, k - 1);
      } else {
        assert r[i] == t[i - 1];
        assert BreakBetween(t, i - 1, k - 1);
      }
      BreakCons(c, t, i - 1, k - 1);
    }
  }

  /** Text with no closing `>` on its first line keeps that property when tags are stripped. */
  lemma {:induction false} UnclosedStaysUnclosed(s: string)
    requires TagLength(s).None?
    ensures TagLength(StripTags(s)).None?
    decreases |s|
  {
    if |s| > 0 && !IsLineTerminator(s[0]) {
      UnclosedStaysUnclosed(s[1..]);
      var r := StripTags(s);
      assert r[1..] == StripTags(s[1..]);
    }
  }

  /** A text whose first line holds no `>` closes no tag. */
  lemma {:induction false} UnclosedNone(t: string)
    requires UnclosedOnFirstLine(t)
    ensures TagLength(t).None?
    decreases |t|
  {
    if |t| > 0 && !IsLineTerminator(t[0]) {
      forall k | 0 <= k < |t[1..]| && t[1..][k] == '>' ensures BreakBetween(t[1..], -1, k) {
        assert t[k + 1] == '>';
        var j :| -1 < j < k + 1 && 0 <= j < |t| && IsLineTerminator(t[j]);
        assert t[1..][j - 1] == t[j];
      }
      UnclosedNone(t[1..]);
    }
  }

  /** A `<` that opens no tag on its line stays in place, and the scan goes on right after it. */
  lemma StripTagsKeepsUnclosed(t: string)
    requires UnclosedOnFirstLine(t)
    ensures StripTags("<" + t) == "<" + StripTags(t)
  {
    UnclosedNone(t);
    assert ("<" + t)[1..] == t;
  }

  /** `s.replace(/<.*?>/g, " ")`: every tag, from a `<` to the first `>` on the same line, becomes
      one space; scanning resumes after the replaced tag. */
  function StripTags(s: string): (r: string)
    ensures |r| <= |s|
    ensures forall k :: 0 <= k < |r| ==> r[k] == ' ' || r[k] in s
    decreases |s|
  {
    if |s| == 0 then ""
    else if s[0] == '<' then
      match TagLength(s[1..])
      case Some(n) => " " + StripTags(s[1 + n..])
      case None => "<" + StripTags(s[1..])
    else [s[0]] + StripTags(s[1..])
  }

  /** No tag survives the stripping. */
  lemma {:induction false} StripTagsTagFree(s: string)
    ensures TagFree(StripTags(s))
    decreases |s|
  {
    if |s| > 0 {
      if s[0] == '<' && TagLength(s[1..]).Some? {
        var rest := s[1 + TagLength(s[1..]).value..];
        StripTagsTagFree(rest);
        TagFreeCons(' ', StripTags(rest));
      } else {
        StripTagsTagFree(s[1..]);
        if s[0] == '<' {
          UnclosedStaysUnclosed(s[1..]);
        }
        TagFreeCons(s[0], StripTags(s[1..]));
      }
    }
  }

  /** Text without `<` passes through tag stripping unchanged. */
  lemma {:induction false} StripTagsPlain(s: string)
    requires '<' !in s
    ensures StripTags(s) == s
    decreases |s|
  {
    if |s| > 0 {
      StripTagsPlain(s[1..]);
      assert [s[0]] + s[1..] == s;
    }
  }

  /** A plain text in front passes through tag stripping unchanged. */
  lemma HeadTail(a: string, x: string)
    requires a != []
    ensures a + x == [a[0]] + (a[1..] + x)
  {
  }

  /** A character other than `<` passes through unchanged. */
  lemma StripTagsPlainHead(c: char, t: string)
    requires c != '<'
    ensures StripTags([c] + t) == [c] + StripTags(t)
  {
    assert ([c] + t)[1..] == t;
  }

  lemma {:induction false} StripTagsPlainPrefix(a: string, b: string)
    requires '<' !in a
    ensures StripTags(a + b) == a + StripTags(b)
    decreases |a|
  {
    if a == [] {
      assert a + b == b;
    } else {
      assert a[0] in a;
      HeadTail(a, b);
      StripTagsPlainHead(a[0], a[1..] + b);
      StripTagsPlainPrefix(a[1..], b);
      HeadTail(a, StripTags(b));
    }
  }

  /** After a `<`, the tag runs to the first `>` when the line does not end before it. */
  lemma {:induction false} TagLengthOf(t: string, b: string)
    requires '>' !in t && forall c :: c in t ==> !IsLineTerminator(c)
    ensures TagLength(t + ">" + b) == Some(|t| + 1)
    decreases |t|
  {
    if t != [] {
      var u := t + ">" + b;
      assert u[0] == t[0] && u[1..] == t[1..] + ">" + b;
      assert t[0] in t;
      TagLengthOf(t[1..], b);
    }
  }

  /** One whole tag is replaced by a single space, and stripping goes on after it. */
  lemma StripOneTag(t: string, b: string)
    requires '>' !in t && forall c :: c in t ==> !IsLineTerminator(c)
    ensures StripTags("<" + t + ">" + b) == " " + StripTags(b)
  {
    var s := "<" + t + ">" + b;
    assert s[1..] == t + ">" + b;
    TagLengthOf(t, b);
    assert s[1 + |t| + 1..] == b;
  }

  /** `s.replace(pat, rep)` with a string pattern: only the first occurrence is replaced. */
  function ReplaceFirst(s: string, pat: string, rep: string): (r: string)
    ensures !Contains(s, pat) ==> r == s
    ensures Contains(s, pat) ==> exists i :: OccursAt(pat, s, i) && (forall j :: 0 <= j < i ==> !OccursAt(pat, s, j))
                                             && r == s[..i] + rep + s[i + |pat|..]
  {
    match IndexOf(s, pat)
    case None => s
    case Some(i) => s[..i] + rep + s[i + |pat|..]
  }

  const CdataOpen: string := "<![CDATA[ "
  const CdataClose: string := " ]]>"

  /** The content of a news item: the first CDATA opener and the first CDATA closer removed, then
      every tag replaced by a space. No tag survives. */
  function CleanDescription(d: string): (r: string)
    ensures TagFree(r)
  {
    StripTagsTagFree(ReplaceFirst(ReplaceFirst(d, CdataOpen, ""), CdataClose, ""));
    StripTags(ReplaceFirst(ReplaceFirst(d, CdataOpen, ""), CdataClose, ""))
  }

  /** The CDATA opener at the front is the first one, and it is removed. */
  lemma RemoveOpener(body: string)
    ensures ReplaceFirst(CdataOpen + body + CdataClose, CdataOpen, "") == body + CdataClose
  {
    var s := CdataOpen + body + CdataClose;
    assert OccursAt(CdataOpen, s, 0);
    assert s[|CdataOpen|..] == body + CdataClose;
  }

  /** In text without `]`, no CDATA closer starts inside the text. */
  lemma NoCloserInside(body: string, j: nat)
    requires ']' !in body && j < |body|
    ensures !OccursAt(CdataClose, body + CdataClose, j)
  {
    var s := body + CdataClose;
    if j + 1 < |body| {
      assert s[j + 1] == body[j + 1];
      assert body[j + 1] in body;
    } else {
      assert s[j + 1] == ' ';
    }
  }

  /** In text without `]`, the only CDATA closer is the one at the end, and it is removed. */
  lemma RemoveCloser(body: string)
    requires ']' !in body
    ensures ReplaceFirst(body + CdataClose, CdataClose, "") == body
  {
    var s := body + CdataClose;
    assert s[|body|..] == CdataClose;
    assert OccursAt(CdataClose, s, |body|);
    var k := IndexOf(s, CdataClose).value;
    if k < |body| {
      NoCloserInside(body, k);
      assert false;
    }
    assert s[..k] == body;
  }

  /** A text wrapped in one CDATA section and led by one tag comes out with the tag replaced by a
      space. */
  lemma CleanTaggedText(t: string, body: string)
    requires '>' !in t && ']' !in t && forall c :: c in t ==> !IsLineTerminator(c)
    requires '<' !in body && ']' !in body
    ensures CleanDescription(CdataOpen + "<" + t + ">" + body + CdataClose) == " " + body
  {
    var m := "<" + t + ">" + body;
    assert CdataOpen + "<" + t + ">" + body + CdataClose == CdataOpen + m + CdataClose;
    assert ']' !in m by {
      forall k | 0 <= k < |m| ensures m[k] != ']' {
        if 1 <= k <= |t| { assert m[k] == t[k - 1]; }
        else if k > |t| + 1 { assert m[k] == body[k - |t| - 2]; }
      }
    }
    RemoveOpener(m);
    RemoveCloser(m);
    StripOneTag(t, body);
    StripTagsPlain(body);
  }

  /** A plain text wrapped in one CDATA section comes out as exactly that text. */
  lemma CleanWrappedText(body: string)
    requires '<' !in body && ']' !in body
    ensures CleanDescription(CdataOpen + body + CdataClose) == body
  {
    RemoveOpener(body);
    RemoveCloser(body);
    StripTagsPlain(body);
  }

  /** `_extractNewsFromRssFeed`: one news entry per RSS item, in order, titled with the item's first
      title and holding its cleaned first description; `None` when some item lacks a title or a
      description (the source then throws reading index 0 of `undefined`). */
  function ExtractNews(items: seq<RssItem>): (r: Option<seq<News>>)
    ensures r.Some? <==> forall i :: 0 <= i < |items| ==> HasText(items[i])
    ensures r.Some? ==> |r.value| == |items|
    ensures r.Some? ==> forall i :: 0 <= i < |items| ==> r.value[i] == NewsOf(items[i])
    decreases |items|
  {
    if items == [] then Some([])
    else if !HasText(items[0]) then None
    else
      assert forall i :: 1 <= i < |items| ==> items[i] == items[1..][i - 1];
      match ExtractNews(items[1..])
      case None => None
      case Some(ns) => Some([NewsOf(items[0])] + ns)
  }

  /** The news entry of one item: its first title and its cleaned first description. */
  function NewsOf(item: RssItem): (n: News)
    requires HasText(item)
    ensures n.title == item.title[0] && TagFree(n.content)
  {
    News(item.title[0], CleanDescription(item.description[0]))
  }

  predicate HasText(item: RssItem) {
    item.title != [] && item.description != []
  }

  // ----- the `lines` filter of getCanteenMenu

  datatype Meal = Meal(meal: string, price1: string)

  /** A line of the canteen menu; `meals` is `None` when the field is missing. */
  datatype Line = Line(name: string, meals: Option<seq<Meal>>)

  predicate HasMeals(l: Line) {
    l.meals.Some? && |l.meals.value| > 0
  }

  /** The lines that serve something, in menu order. */
  function LinesWithMeals(lines: seq<Line>): (r: seq<Line>)
    ensures forall i :: 0 <= i < |r| ==> HasMeals(r[i]) && r[i] in lines
    ensures forall i :: 0 <= i < |lines| && HasMeals(lines[i]) ==> lines[i] in r
    ensures |r| <= |lines|
    decreases |lines|
  {
    if lines == [] then []
    else
      var init := lines[..|lines| - 1];
      var last := lines[|lines| - 1];
      assert forall i :: 0 <= i < |init| ==> init[i] == lines[i];
      LinesWithMeals(init) + (if HasMeals(last) then [last] else [])
  }

  /** The filter works piecewise, so kept lines keep their relative order. */
  lemma {:induction false} LinesWithMealsAppend(a: seq<Line>, b: seq<Line>)
    ensures LinesWithMeals(a + b) == LinesWithMeals(a) + LinesWithMeals(b)
    decreases |b|
  {
    if b != [] {
      var init := b[..|b| - 1];
      LinesWithMealsAppend(a, init);
      assert (a + b)[..|a + b| - 1] == a + init;
    } else {
      assert a + b == a;
    }
  }

  /** Filtering twice keeps the same lines. */
  lemma {:induction false} LinesWithMealsIdempotent(lines: seq<Line>)
    ensures LinesWithMeals(LinesWithMeals(lines)) == LinesWithMeals(lines)
    decreases |lines|
  {
    if lines != [] {
      var init, last := lines[..|lines| - 1], lines[|lines| - 1];
      LinesWithMealsIdempotent(init);
      LinesWithMealsAppend(LinesWithMeals(init), if HasMeals(last) then [last] else []);
      if HasMeals(last) {
        assert [last][..0] == [];
      }
    }
  }
}
