/** What `addWords` promises for emotes that lie inside words. */
module AddWordsLaws {
  import opened Sequences
  import opened AddWords

  predicate NoSpace(s: string) {
    ' ' !in s
  }

  // ----- words and content

  /** The length of the part before the first space. */
  function WordLength(s: string): (n: nat)
    ensures n <= |s| && NoSpace(s[..n])
    ensures n < |s| ==> s[n] == ' '
  {
    if s == [] || s[0] == ' ' then 0 else 1 + WordLength(s[1..])
  }

  /** `QString::split(' ')`, which keeps empty words. */
  function Split(s: string): (words: seq<string>)
    ensures words != []
    decreases |s|
  {
    var n := WordLength(s);
    if n == |s| then [s] else [s[..n]] + Split(s[n + 1..])
  }

  function Join(words: seq<string>): string
    requires words != []
  {
    if |words| == 1 then words[0] else words[0] + " " + Join(words[1..])
  }

  lemma CutAt(s: string, n: nat)
    requires n < |s| && s[n] == ' '
    ensures s == s[..n] + " " + s[n + 1..]
  {
  }

  lemma SpacelessCons(word: string, words: seq<string>)
    requires NoSpace(word) && forall w :: w in words ==> NoSpace(w)
    ensures forall w :: w in [word] + words ==> NoSpace(w)
  {
  }

  lemma {:induction false} JoinOfSplit(s: string)
    ensures Join(Split(s)) == s
    ensures forall w :: w in Split(s) ==> NoSpace(w)
    decreases |s|
  {
    hide NoSpace;
    var n := WordLength(s);
    if n == |s| {
      assert s[..n] == s;
    } else {
      hide Join, Split;
      SplitStep(s);
      JoinOfSplit(s[n + 1..]);
      JoinCons(s[..n], Split(s[n + 1..]));
      SpacelessCons(s[..n], Split(s[n + 1..]));
      CutAt(s, n);
    }
  }

  lemma SplitStep(s: string)
    requires WordLength(s) < |s|
    ensures Split(s) == [s[..WordLength(s)]] + Split(s[WordLength(s) + 1..])
  {
  }

  lemma JoinCons(word: string, words: seq<string>)
    requires words != []
    ensures Join([word] + words) == word + " " + Join(words)
  {
    assert ([word] + words)[1..] == words;
  }

  // ----- where emotes may be

  /** `e` is a piece of a word of `text`, which starts at offset `cursor`; the piece spells its name. */
  predicate Fits(cursor: int, text: string, e: Emote) {
    && 0 < |e.name| && NoSpace(e.name)
    && cursor <= e.start && e.start - cursor + |e.name| <= |text|
    && text[e.start - cursor..e.start - cursor + |e.name|] == e.name
    && e.start <= e.end <= e.start + |e.name|
  }

  /** The occurrences are in order, apart from each other, and each lies inside a word. */
  ghost predicate Placed(cursor: int, text: string, emotes: seq<Emote>) {
    && (forall i :: 0 <= i < |emotes| ==> Fits(cursor, text, emotes[i]))
    && (forall i, j :: 0 <= i < j < |emotes| ==> emotes[i].start + |emotes[i].name| <= emotes[j].start)
  }

  lemma PlacedShift(cursor: int, text: string, emotes: seq<Emote>, n: nat)
    requires Placed(cursor, text, emotes) && n <= |text|
    requires emotes != [] ==> cursor + n <= emotes[0].start
    ensures Placed(cursor + n, text[n..], emotes)
  {
  }

  lemma NameHolds(text: string, d: nat, name: string, k: nat)
    requires d + |name| <= |text| && text[d..d + |name|] == name && d <= k < d + |name|
    ensures text[k] in name
  {
  }

  /** An occurrence that starts inside the word ends inside it; one that does not starts behind the space. */
  lemma InsideOneWord(cursor: int, word: string, tail: string, emotes: seq<Emote>)
    requires emotes != [] && Placed(cursor, word + tail, emotes) && (tail != [] ==> tail[0] == ' ')
    ensures var e := emotes[0];
            && cursor <= e.start <= e.end <= e.start + |e.name| && 0 < |e.name|
            && (if e.start < cursor + |word| then e.start + |e.name| <= cursor + |word| else cursor + |word| < e.start)
  {
    var e := emotes[0];
    assert Fits(cursor, word + tail, e);
    if e.start <= cursor + |word| < e.start + |e.name| {
      NameHolds(word + tail, e.start - cursor, e.name, |word|);
      assert false;
    }
  }

  // ----- what is emitted

  /** The text that the elements stand for. */
  function Spell(elements: seq<Element>): string {
    if elements == [] then []
    else (match elements[0] case EmoteElement(e, _) => e.name case TextElement(t) => t) + Spell(elements[1..])
  }

  function Emitted(elements: seq<Element>): seq<Emote> {
    if elements == [] then []
    else (if elements[0].EmoteElement? then [elements[0].emote] else []) + Emitted(elements[1..])
  }

  /** Only an emote at the end of its word is followed by a space. */
  ghost predicate SpacedAtEnd(elements: seq<Element>) {
    forall i :: 0 <= i < |elements| && elements[i].EmoteElement? ==>
      (elements[i].trailingSpace <==> i == |elements| - 1)
  }

  /** How much text an element stands for. */
  function Width(e: Element): nat {
    match e case EmoteElement(emote, _) => |emote.name| case TextElement(t) => |t|
  }

  /**
    The elements lie one behind the other from offset `cursor` on: every emote where its
    occurrence starts, and between two emotes at most one text, which is not empty.
   */
  ghost predicate AtOffsets(cursor: int, elements: seq<Element>)
    decreases elements
  {
    elements == [] ||
    (&& (match elements[0]
         case EmoteElement(e, _) => e.start == cursor
         case TextElement(t) => t != [] && (|elements| > 1 ==> elements[1].EmoteElement?))
     && AtOffsets(cursor + Width(elements[0]), elements[1..]))
  }

  lemma AtOffsetsCons(cursor: int, first: Element, rest: seq<Element>)
    requires AtOffsets(cursor + Width(first), rest)
    requires first.EmoteElement? ==> first.emote.start == cursor
    requires first.TextElement? ==> first.text != [] && (rest != [] ==> rest[0].EmoteElement?)
    ensures AtOffsets(cursor, [first] + rest)
  {
    assert ([first] + rest)[1..] == rest;
  }

  lemma {:induction false} EmittedConcat(a: seq<Element>, b: seq<Element>)
    ensures Emitted(a + b) == Emitted(a) + Emitted(b)
  {
    if a == [] {
      assert a + b == b;
    } else {
      EmittedConcat(a[1..], b);
      assert (a + b)[1..] == a[1..] + b;
    }
  }

  ghost predicate WordDone(cursor: int, word: string, tail: string, emotes: seq<Emote>, r: WordResult) {
    && r.cursor == cursor + |word| + 1
    && r.elements != []
    && Spell(r.elements) == word
    && Emitted(r.elements) + r.rest == emotes
    && SpacedAtEnd(r.elements)
    && AtOffsets(cursor, r.elements)
    && Placed(cursor + |word|, tail, r.rest)
  }

  lemma PrependDone(cursor: int, word: string, n: nat, tail: string, emotes: seq<Emote>, rest: seq<Emote>,
                    first: Element, r: WordResult)
    requires n <= |word| && WordDone(cursor + n, word[n..], tail, rest, r)
    requires Spell([first]) == word[..n] && emotes == Emitted([first]) + rest
    requires first.EmoteElement? ==> !first.trailingSpace && first.emote.start == cursor
    requires first.TextElement? ==> first.text != [] && r.elements[0].EmoteElement?
    requires Width(first) == n
    ensures WordDone(cursor, word, tail, emotes, Prepend([first], r))
  {
    hide Placed, AtOffsets;
    AtOffsetsCons(cursor, first, r.elements);
    var all := [first] + r.elements;
    assert all[1..] == r.elements;
    assert word == word[..n] + word[n..];
    assert Emitted([first]) + (Emitted(r.elements) + r.rest) == Emitted([first]) + Emitted(r.elements) + r.rest;
    EmittedConcat([first], r.elements);
  }

  /** One word: the cursor ends behind it, its elements spell it, and exactly its own emotes are emitted. */
  lemma {:induction false} WordLaw(cursor: int, word: string, tail: string, emotes: seq<Emote>)
    requires word != [] && NoSpace(word) && (tail != [] ==> tail[0] == ' ')
    requires Ordered(emotes) && Placed(cursor, word + tail, emotes)
    ensures WordDone(cursor, word, tail, emotes, SplitWord(cursor, word, emotes))
    decreases |emotes|, |word|
  {
    hide SplitWord, Placed, Fits, WordDone, Spell, Emitted, Ordered, AtOffsets;
    SplitWordCases(cursor, word, emotes);
    if emotes != [] {
      InsideOneWord(cursor, word, tail, emotes);
    }
    if emotes == [] || cursor + |word| <= emotes[0].start {
      TextDone(cursor, word, tail, emotes);
    } else {
      var e := emotes[0];
      var d := e.start - cursor;
      if d > 0 {
        PlacedBehind(cursor, word, tail, emotes, d);
        WordLaw(cursor + d, word[d..], tail, emotes);
        BeginsWithEmote(cursor + d, word[d..], emotes);
        PrependText(cursor, word, d, tail, emotes, SplitWord(cursor + d, word[d..], emotes));
      } else {
        EmoteFirst(cursor, word, tail, emotes);
        var n := |e.name|;
        OrderedSuffix(emotes, 1);
        if n < |word| {
          WordLaw(cursor + n, word[n..], tail, emotes[1..]);
          PrependEmote(cursor, word, tail, emotes, SplitWord(cursor + n, word[n..], emotes[1..]));
        } else {
          EmoteDone(cursor, word, tail, emotes);
        }
      }
    }
  }

  lemma PlacedBehind(cursor: int, word: string, tail: string, emotes: seq<Emote>, n: nat)
    requires Placed(cursor, word + tail, emotes) && n <= |word|
    requires emotes != [] ==> cursor + n <= emotes[0].start
    ensures Placed(cursor + n, word[n..] + tail, emotes)
  {
    hide Placed;
    PlacedShift(cursor, word + tail, emotes, n);
    assert (word + tail)[n..] == word[n..] + tail;
  }

  /** A word without emotes is one text. */
  lemma TextDone(cursor: int, word: string, tail: string, emotes: seq<Emote>)
    requires word != [] && Placed(cursor, word + tail, emotes)
    requires emotes != [] ==> cursor + |word| <= emotes[0].start
    ensures WordDone(cursor, word, tail, emotes, WordResult([TextElement(word)], emotes, cursor + |word| + 1))
  {
  }

  /** Where the next emote starts, the next element is that emote. */
  lemma BeginsWithEmote(cursor: int, word: string, emotes: seq<Emote>)
    requires Ordered(emotes) && emotes != [] && emotes[0].start == cursor && emotes[0].end <= cursor + |word|
    ensures SplitWord(cursor, word, emotes).elements != [] && SplitWord(cursor, word, emotes).elements[0].EmoteElement?
  {
    hide SplitWord, Ordered;
    SplitWordCases(cursor, word, emotes);
  }

  /** The text before an emote. */
  lemma PrependText(cursor: int, word: string, n: nat, tail: string, emotes: seq<Emote>, r: WordResult)
    requires 0 < n <= |word| && WordDone(cursor + n, word[n..], tail, emotes, r) && r.elements[0].EmoteElement?
    ensures WordDone(cursor, word, tail, emotes, Prepend([TextElement(word[..n])], r))
  {
    hide Placed, AtOffsets;
    assert Emitted([TextElement(word[..n])]) + emotes == emotes;
    PrependDone(cursor, word, n, tail, emotes, emotes, TextElement(word[..n]), r);
  }

  /** An emote with more of its word behind it. */
  lemma PrependEmote(cursor: int, word: string, tail: string, emotes: seq<Emote>, r: WordResult)
    requires emotes != [] && |emotes[0].name| <= |word| && word[..|emotes[0].name|] == emotes[0].name
    requires emotes[0].start == cursor
    requires WordDone(cursor + |emotes[0].name|, word[|emotes[0].name|..], tail, emotes[1..], r)
    ensures WordDone(cursor, word, tail, emotes, Prepend([EmoteElement(emotes[0], false)], r))
  {
    hide Placed, AtOffsets;
    var e := EmoteElement(emotes[0], false);
    assert Spell([e]) == emotes[0].name + [] == emotes[0].name && Emitted([e]) == [emotes[0]];
    assert emotes == [emotes[0]] + emotes[1..];
    PrependDone(cursor, word, |emotes[0].name|, tail, emotes, emotes[1..], e, r);
  }

  /** An emote that is the whole rest of its word. */
  lemma EmoteDone(cursor: int, word: string, tail: string, emotes: seq<Emote>)
    requires emotes != [] && emotes[0].start == cursor && word[..|word|] == emotes[0].name && Placed(cursor + |word|, word[|word|..] + tail, emotes[1..])
    ensures WordDone(cursor, word, tail, emotes, WordResult([EmoteElement(emotes[0], true)], emotes[1..], cursor + |word| + 1))
  {
  }

  lemma EmoteFirst(cursor: int, word: string, tail: string, emotes: seq<Emote>)
    requires emotes != [] && emotes[0].start == cursor && |emotes[0].name| <= |word|
    requires Placed(cursor, word + tail, emotes)
    ensures var n := |emotes[0].name|;
            word[..n] == emotes[0].name && Placed(cursor + n, word[n..] + tail, emotes[1..])
  {
    hide Placed, Fits;
    var n := |emotes[0].name|;
    FirstSpells(cursor, word, tail, emotes);
    PlacedTail(cursor, word + tail, emotes);
    PlacedBehind(cursor, word, tail, emotes[1..], n);
  }

  lemma FirstSpells(cursor: int, word: string, tail: string, emotes: seq<Emote>)
    requires emotes != [] && emotes[0].start == cursor && |emotes[0].name| <= |word|
    requires Placed(cursor, word + tail, emotes)
    ensures word[..|emotes[0].name|] == emotes[0].name
  {
    assert Fits(cursor, word + tail, emotes[0]);
    assert (word + tail)[0..|emotes[0].name|] == word[..|emotes[0].name|];
  }

  lemma PlacedTail(cursor: int, text: string, emotes: seq<Emote>)
    requires emotes != [] && Placed(cursor, text, emotes)
    ensures Placed(cursor, text, emotes[1..])
    ensures |emotes| > 1 ==> emotes[0].start + |emotes[0].name| <= emotes[1].start
  {
  }

  /** The elements of every word lie from the word's own offset on. */
  ghost predicate GroupsAt(cursor: int, words: seq<string>, groups: seq<seq<Element>>)
    requires |groups| == |words|
    decreases |words|
  {
    words == [] || (AtOffsets(cursor, groups[0]) && GroupsAt(cursor + |words[0]| + 1, words[1..], groups[1..]))
  }

  /** All words: one group of elements each, spelling the word, with every emote emitted once and in order. */
  lemma {:induction false} GroupsLaw(cursor: int, words: seq<string>, emotes: seq<Emote>)
    requires words != [] && (forall w :: w in words ==> NoSpace(w))
    requires Ordered(emotes) && Placed(cursor, Join(words), emotes)
    ensures var groups := Groups(cursor, words, emotes);
            && |groups| == |words|
            && (forall k :: 0 <= k < |words| ==> Spell(groups[k]) == words[k] && SpacedAtEnd(groups[k]))
            && GroupsAt(cursor, words, groups)
            && Emitted(Flatten(groups)) == emotes
    decreases |words|
  {
    hide Placed, SplitWord, Ordered, Spell, Emitted, SpacedAtEnd, AtOffsets;
    var word := words[0];
    var tail := if |words| == 1 then [] else " " + Join(words[1..]);
    assert Join(words) == word + tail;
    var w := NextWord(cursor, word, emotes);
    NextWordLaw(cursor, word, tail, emotes);
    EmittedConcat(w.elements, Flatten(Groups(w.cursor, words[1..], w.rest)));
    if |words| == 1 {
      NothingLeft(cursor + |word|, w.rest);
      EmittedNothing();
    } else {
      SkipSpace(cursor + |word|, tail, w.rest);
      assert tail[1..] == Join(words[1..]);
      GroupsLaw(w.cursor, words[1..], w.rest);
    }
  }

  lemma EmittedNothing()
    ensures Emitted(Flatten<Element>([])) == []
  {
  }

  lemma NextWordLaw(cursor: int, word: string, tail: string, emotes: seq<Emote>)
    requires NoSpace(word) && (tail != [] ==> tail[0] == ' ')
    requires Ordered(emotes) && Placed(cursor, word + tail, emotes)
    ensures var w := NextWord(cursor, word, emotes);
            && w.cursor == cursor + |word| + 1
            && Spell(w.elements) == word && SpacedAtEnd(w.elements) && AtOffsets(cursor, w.elements)
            && Emitted(w.elements) + w.rest == emotes
            && Ordered(w.rest) && Placed(cursor + |word|, tail, w.rest)
  {
    hide Placed, SplitWord;
    if word == [] {
      assert word + tail == tail && Emitted([]) + emotes == emotes;
    } else {
      WordLaw(cursor, word, tail, emotes);
    }
  }

  lemma NothingLeft(cursor: int, emotes: seq<Emote>)
    requires Placed(cursor, "", emotes)
    ensures emotes == []
  {
    assert emotes != [] ==> Fits(cursor, "", emotes[0]);
  }

  lemma SkipSpace(cursor: int, tail: string, emotes: seq<Emote>)
    requires tail != [] && tail[0] == ' ' && Placed(cursor, tail, emotes)
    ensures Placed(cursor + 1, tail[1..], emotes)
  {
  }

  /** The whole message. */
  lemma ContentLaw(content: string, emotes: seq<Emote>)
    requires Ordered(emotes) && Placed(0, content, emotes)
    ensures var words := Split(content);
            var groups := Groups(0, words, emotes);
            && Join(words) == content
            && |groups| == |words|
            && (forall k :: 0 <= k < |words| ==> Spell(groups[k]) == words[k] && SpacedAtEnd(groups[k]))
            && GroupsAt(0, words, groups)
            && Emitted(Flatten(groups)) == emotes
  {
    JoinOfSplit(content);
    GroupsLaw(0, Split(content), emotes);
  }

  // ----- any list of occurrences

  /** While the next occurrence has begun before the cursor, or reaches beyond the word, a word is one text. */
  lemma WordWithoutEmote(cursor: int, word: string, emotes: seq<Emote>)
    requires Ordered(emotes) && word != []
    requires emotes != [] ==> emotes[0].start < cursor || cursor + |word| < emotes[0].end
    ensures SplitWord(cursor, word, emotes) == WordResult([TextElement(word)], emotes, cursor + |word| + 1)
  {
  }

  lemma EmittedPrepend(first: Element, r: WordResult, emotes: seq<Emote>)
    requires Emitted(r.elements) + r.rest == emotes
    ensures var p := Prepend([first], r);
            Emitted(p.elements) + p.rest == (if first.EmoteElement? then [first.emote] else []) + emotes
  {
  }

  lemma {:induction false} WordEmits(cursor: int, word: string, emotes: seq<Emote>)
    requires Ordered(emotes)
    ensures var r := SplitWord(cursor, word, emotes); Emitted(r.elements) + r.rest == emotes
    decreases |emotes|, |word|
  {
    hide SplitWord, Prepend, Ordered;
    SplitWordCases(cursor, word, emotes);
    EmittedOne(word, emotes);
    if DoesWordContainATwitchEmote(cursor, word, emotes) {
      var e := emotes[0];
      OrderedSuffix(emotes, 1);
      StartsInWord(cursor, word, emotes);
      assert [e] + emotes[1..] == emotes;
      if e.start != cursor {
        var pre := Left(word, e.start - cursor);
        WordEmits(cursor + |pre|, Mid(word, |pre|), emotes);
        EmittedPrepend(TextElement(pre), SplitWord(cursor + |pre|, Mid(word, |pre|), emotes), emotes);
        assert [] + emotes == emotes;
      } else if Mid(word, |e.name|) != [] {
        var rest := SplitWord(cursor + |e.name|, Mid(word, |e.name|), emotes[1..]);
        WordEmits(cursor + |e.name|, Mid(word, |e.name|), emotes[1..]);
        EmittedPrepend(EmoteElement(e, false), rest, emotes[1..]);
      }
    }
  }

  lemma EmittedOne(word: string, emotes: seq<Emote>)
    ensures Emitted([]) + emotes == emotes && Emitted([TextElement(word)]) + emotes == emotes
    ensures emotes != [] ==> Emitted([EmoteElement(emotes[0], true)]) + emotes[1..] == emotes
  {
  }

  lemma StartsInWord(cursor: int, word: string, emotes: seq<Emote>)
    requires Ordered(emotes) && DoesWordContainATwitchEmote(cursor, word, emotes)
    ensures emotes[0].start != cursor ==> cursor < emotes[0].start <= cursor + |word|
    ensures var n := |Left(word, emotes[0].start - cursor)|; emotes[0].start != cursor ==> |Mid(word, n)| < |word|
  {
  }

  /** Whatever the occurrences are, they are emitted in order and at most once; the first that fits no word holds back all behind it. */
  lemma {:induction false} EmitsPrefix(cursor: int, words: seq<string>, emotes: seq<Emote>)
    requires Ordered(emotes)
    ensures Emitted(Flatten(Groups(cursor, words, emotes))) <= emotes
    decreases |words|
  {
    hide SplitWord, Ordered, Emitted;
    if words == [] {
      EmittedNothing();
    } else {
      var w := NextWord(cursor, words[0], emotes);
      EmittedOne([], emotes);
      if words[0] != [] {
        WordEmits(cursor, words[0], emotes);
      }
      EmitsPrefix(w.cursor, words[1..], w.rest);
      EmittedConcat(w.elements, Flatten(Groups(w.cursor, words[1..], w.rest)));
      assert Emitted(w.elements) + w.rest == emotes;
    }
  }
}
