/**
  Splitting a chat message into words and Twitch emotes (`MessageBuilder::addWords`). Emoji
  and third-party emotes inside a text fragment are not looked at.
 */
module AddWords {
  import opened Sequences

  /** An emote occurrence in the message; `end` is the last character or the one behind it. */
  datatype Emote = Emote(start: int, end: int, name: string)

  datatype Element =
    | EmoteElement(emote: Emote, trailingSpace: bool)
    | TextElement(text: string)

  /** What one word turns into, the emotes that are left, and the cursor behind the word. */
  datatype WordResult = WordResult(elements: seq<Element>, rest: seq<Emote>, cursor: int)

  /** `QString::left` and `QString::mid`. */
  function Left(s: string, n: nat): string {
    if n < |s| then s[..n] else s
  }

  function Mid(s: string, n: nat): string {
    if n < |s| then s[n..] else []
  }

  predicate DoesWordContainATwitchEmote(cursor: int, word: string, emotes: seq<Emote>) {
    emotes != [] && cursor <= emotes[0].start && emotes[0].end <= cursor + |word|
  }

  /** Occurrences are only made with `start <= end`. */
  predicate Ordered(emotes: seq<Emote>) {
    forall i :: 0 <= i < |emotes| ==> emotes[i].start <= emotes[i].end
  }

  function SplitWord(cursor: int, word: string, emotes: seq<Emote>): (r: WordResult)
    requires Ordered(emotes)
    ensures Ordered(r.rest)
    decreases |emotes|, |word|
  {
    if DoesWordContainATwitchEmote(cursor, word, emotes) then
      var e := emotes[0];
      if e.start == cursor then
        var word' := Mid(word, |e.name|);
        if word' == [] then
          WordResult([EmoteElement(e, true)], emotes[1..], cursor + |e.name| + 1)
        else
          var r := SplitWord(cursor + |e.name|, word', emotes[1..]);
          Prepend([EmoteElement(e, false)], r)
      else
        var preText := Left(word, e.start - cursor);
        var r := SplitWord(cursor + |preText|, Mid(word, |preText|), emotes);
        Prepend([TextElement(preText)], r)
    else if word == [] then
      WordResult([], emotes, cursor)
    else
      WordResult([TextElement(word)], emotes, cursor + |word| + 1)
  }

  function NextWord(cursor: int, word: string, emotes: seq<Emote>): (r: WordResult)
    requires Ordered(emotes)
    ensures Ordered(r.rest)
  {
    if word == [] then WordResult([], emotes, cursor + 1) else SplitWord(cursor, word, emotes)
  }

  /** The elements made from each word. */
  function Groups(cursor: int, words: seq<string>, emotes: seq<Emote>): (r: seq<seq<Element>>)
    requires Ordered(emotes)
    decreases |words|
  {
    if words == [] then []
    else
      var w := NextWord(cursor, words[0], emotes);
      [w.elements] + Groups(w.cursor, words[1..], w.rest)
  }

  // ----- the source's loops

  method AddWords(words: seq<string>, emotes: seq<Emote>) returns (elements: seq<Element>)
    requires Ordered(emotes)
    ensures elements == Flatten(Groups(0, words, emotes))
  {
    hide Groups, Flatten, SplitWord, Ordered;
    elements := [];
    var cursor: int, it := 0, 0;
    for k := 0 to |words|
      invariant 0 <= it <= |emotes|
      invariant Ordered(emotes[it..])
      invariant elements + Flatten(Groups(cursor, words[k..], emotes[it..])) == Flatten(Groups(0, words, emotes))
    {
      GroupsStep(cursor, words[k..], emotes[it..], elements);
      assert words[k..][1..] == words[k + 1..];
      if words[k] == [] {
        cursor := cursor + 1;
        continue;
      }
      var made;
      made, cursor, it := AddWord(cursor, words[k], emotes, it);
      elements := elements + made;
      OrderedSuffix(emotes, it);
    }
    NoGroups(cursor, emotes[it..]);
  }

  lemma NoGroups(cursor: int, emotes: seq<Emote>)
    requires Ordered(emotes)
    ensures Flatten(Groups(cursor, [], emotes)) == []
  {
  }

  lemma OrderedSuffix(emotes: seq<Emote>, it: nat)
    requires Ordered(emotes) && it <= |emotes|
    ensures Ordered(emotes[it..])
  {
  }

  lemma GroupsStep(cursor: int, words: seq<string>, emotes: seq<Emote>, before: seq<Element>)
    requires Ordered(emotes) && words != []
    ensures var w := NextWord(cursor, words[0], emotes);
            && Ordered(w.rest)
            && before + Flatten(Groups(cursor, words, emotes))
               == before + w.elements + Flatten(Groups(w.cursor, words[1..], w.rest))
            && (words[0] == [] ==> before + w.elements == before)
  {
    hide SplitWord, Ordered, Flatten;
    var w := NextWord(cursor, words[0], emotes);
    FlattenCons(w.elements, Groups(w.cursor, words[1..], w.rest));
    assert before + (w.elements + Flatten(Groups(w.cursor, words[1..], w.rest)))
        == before + w.elements + Flatten(Groups(w.cursor, words[1..], w.rest));
  }

  /** The three ways `SplitWord` can go. */
  lemma SplitWordCases(cursor: int, word: string, emotes: seq<Emote>)
    requires Ordered(emotes)
    ensures var r := SplitWord(cursor, word, emotes);
            if !DoesWordContainATwitchEmote(cursor, word, emotes) then
              r == if word == [] then WordResult([], emotes, cursor)
                   else WordResult([TextElement(word)], emotes, cursor + |word| + 1)
            else
              var e := emotes[0];
              var n := if e.start == cursor then |e.name| else |Left(word, e.start - cursor)|;
              if e.start != cursor then
                r == Prepend([TextElement(Left(word, e.start - cursor))], SplitWord(cursor + n, Mid(word, n), emotes))
              else if Mid(word, n) == [] then
                r == WordResult([EmoteElement(e, true)], emotes[1..], cursor + n + 1)
              else
                r == Prepend([EmoteElement(e, false)], SplitWord(cursor + n, Mid(word, n), emotes[1..]))
  {
    hide Left, Mid, Prepend;
  }

  /** One round of the outer loop for a non-empty word: the elements it makes, and where it leaves the cursor and the iterator. */
  method AddWord(from: int, whole: string, emotes: seq<Emote>, first: nat)
    returns (made: seq<Element>, cursor: int, it: nat)
    requires Ordered(emotes) && first <= |emotes|
    ensures it <= |emotes|
    ensures SplitWord(from, whole, emotes[first..]) == WordResult(made, emotes[it..], cursor)
  {
    hide SplitWord, Ordered, Prepend;
    made, cursor, it := [], from, first;
    var word := whole;
    OrderedSuffix(emotes, it);
    ghost var goal := SplitWord(from, whole, emotes[first..]);
    PrependNothing(goal);
    while DoesWordContainATwitchEmote(cursor, word, emotes[it..])
      invariant it <= |emotes| && Ordered(emotes[it..])
      invariant goal == Prepend(made, SplitWord(cursor, word, emotes[it..]))
      decreases |emotes| - it, |word|
    {
      var e := emotes[it];
      assert emotes[it..][1..] == emotes[it + 1..];
      OrderedSuffix(emotes, it + 1);
      SplitWordCases(cursor, word, emotes[it..]);
      if e.start == cursor {
        cursor := cursor + |e.name|;
        word := Mid(word, |e.name|);
        it := it + 1;
        if word == [] {
          PrependLast(made, [EmoteElement(e, true)], emotes[it..], cursor + 1);
          made := made + [EmoteElement(e, true)];
          cursor := cursor + 1;
          return;
        }
        PrependTwice(made, EmoteElement(e, false), SplitWord(cursor, word, emotes[it..]));
        made := made + [EmoteElement(e, false)];
        continue;
      }
      var preText := Left(word, e.start - cursor);
      cursor := cursor + |preText|;
      word := Mid(word, |preText|);
      PrependTwice(made, TextElement(preText), SplitWord(cursor, word, emotes[it..]));
      made := made + [TextElement(preText)];
    }
    SplitWordCases(cursor, word, emotes[it..]);
    if word == [] {
      PrependLast(made, [], emotes[it..], cursor);
      return;
    }
    PrependLast(made, [TextElement(word)], emotes[it..], cursor + |word| + 1);
    made := made + [TextElement(word)];
    cursor := cursor + |word| + 1;
  }

  function Prepend(elements: seq<Element>, r: WordResult): WordResult {
    r.(elements := elements + r.elements)
  }

  lemma PrependNothing(r: WordResult)
    ensures Prepend([], r) == r
  {
  }

  lemma PrependLast(a: seq<Element>, b: seq<Element>, rest: seq<Emote>, cursor: int)
    ensures Prepend(a, WordResult(b, rest, cursor)) == WordResult(a + b, rest, cursor)
    ensures a + [] == a
  {
  }

  lemma PrependTwice(a: seq<Element>, e: Element, r: WordResult)
    ensures Prepend(a, Prepend([e], r)) == Prepend(a + [e], r)
  {
  }
}
