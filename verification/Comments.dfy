/** text.c: comments made of random sentences, and how many random numbers they take. */
module Comments {
  import opened SpeedSeed
  import opened Streams
  import A = Alignment
  import opened Distributions

  // ----- the grammar of dists.dss -----

  datatype Part = Noun | Verb | Preposition | Terminator        // of a sentence

  /** A word of a phrase, with the punctuation that follows it. */
  datatype Word = Word(kind: Kind, filler: string)

  datatype Kind = ANoun | AnAdjective | AnAdverb | AVerb | AnAuxiliary

  const GRAMMAR: seq<seq<Part>> := [
    [Noun, Verb, Terminator],
    [Noun, Verb, Preposition, Terminator],
    [Noun, Verb, Noun, Terminator],
    [Noun, Preposition, Verb, Noun, Terminator],
    [Noun, Preposition, Verb, Preposition, Terminator]
  ]

  const NOUN_PHRASES: seq<seq<Word>> := [
    [Word(ANoun, "")],
    [Word(AnAdjective, ""), Word(ANoun, "")],
    [Word(AnAdjective, ","), Word(AnAdjective, ""), Word(ANoun, "")],
    [Word(AnAdverb, ""), Word(AnAdjective, ""), Word(ANoun, "")]
  ]

  const VERB_PHRASES: seq<seq<Word>> := [
    [Word(AVerb, "")],
    [Word(AnAuxiliary, ""), Word(AVerb, "")],
    [Word(AVerb, ""), Word(AnAdverb, "")],
    [Word(AnAuxiliary, ""), Word(AVerb, ""), Word(AnAdverb, "")]
  ]

  /** The distributions that a comment draws from; the first three choose among the forms above. */
  datatype Lists = Lists(grammar: seq<Member>, np: seq<Member>, vp: seq<Member>,
                         nouns: seq<Member>, verbs: seq<Member>, adjectives: seq<Member>, adverbs: seq<Member>,
                         auxiliaries: seq<Member>, prepositions: seq<Member>, terminators: seq<Member>)

  ghost predicate Pickable(list: seq<Member>, shortest: nat)
  {
    list != [] && Searchable(list) && forall i :: 0 <= i < |list| ==> |list[i].text| >= shortest
  }

  /** The lists of dists.dss: five, four and four forms, and no word shorter than the shortest listed there. */
  ghost predicate Listed(d: Lists)
  {
    && |d.grammar| == |GRAMMAR| && |d.np| == |NOUN_PHRASES| && |d.vp| == |VERB_PHRASES|
    && Pickable(d.grammar, 0) && Pickable(d.np, 0) && Pickable(d.vp, 0)
    && Pickable(d.nouns, 5) && Pickable(d.verbs, 3) && Pickable(d.adjectives, 3) && Pickable(d.adverbs, 4)
    && Pickable(d.auxiliaries, 2) && Pickable(d.prepositions, 2) && Pickable(d.terminators, 1)
  }

  function ListFor(d: Lists, kind: Kind): seq<Member>
  {
    match kind
    case ANoun => d.nouns
    case AnAdjective => d.adjectives
    case AnAdverb => d.adverbs
    case AVerb => d.verbs
    case AnAuxiliary => d.auxiliaries
  }

  // ----- rows of draws on one stream -----

  /** All draws of the row ask for the same stream. */
  ghost predicate AllOn(row: A.Row, stream: int)
  {
    forall k :: 0 <= k < |row| ==> row[k].stream == stream
  }

  /** A row of draws on one stream that led from one seed table to another. */
  ghost predicate Drew(before: seq<Stream>, row: A.Row, after: seq<Stream>, stream: int)
  {
    ValidTable(before) && ValidTable(after) && after == A.AfterDraws(before, row) && AllOn(row, stream)
  }

  lemma DrewNothing(s: seq<Stream>, stream: int)
    requires ValidTable(s)
    ensures Drew(s, [], s, stream)
  {
    NoDraws(s);
  }

  lemma DrewMore(s: seq<Stream>, row: A.Row, t: seq<Stream>, more: A.Row, u: seq<Stream>, stream: int)
    requires Drew(s, row, t, stream) && Drew(t, more, u, stream)
    ensures Drew(s, row + more, u, stream)
  {
    DrawsCompose(s, row, more);
  }

  lemma {:induction false} DrawsCompose(s: seq<Stream>, row: A.Row, more: A.Row)
    requires ValidTable(s)
    ensures A.AfterDraws(s, row + more) == A.AfterDraws(A.AfterDraws(s, row), more)
  {
    if more == [] {
      assert row + more == row;
    } else {
      var n := |more| - 1;
      assert (row + more)[..|row| + n] == row + more[..n];
      DrawsCompose(s, row, more[..n]);
    }
  }

  /** The draw from stream sd that the table s gives selects entry i: the first one to reach it. */
  ghost predicate Picks(list: seq<Member>, sd: int, s: seq<Stream>, i: nat)
    requires list != [] && ValidTable(s)
  {
    exists drawn: int ::
      IsDrawn(s, PickDraw(list, sd), drawn)
      && i < |list| && drawn <= list[i].weight && forall k :: 0 <= k < i ==> list[k].weight < drawn
  }

  /** And the text is that of the entry. */
  ghost predicate FromList(list: seq<Member>, sd: int, s: seq<Stream>, text: string)
    requires list != [] && ValidTable(s)
  {
    exists i: nat :: Picks(list, sd, s, i) && i < |list| && text == list[i].text
  }

  /** pick_str, keeping book of its draw. */
  method Pick(list: seq<Member>, sd: int, seeds: array<Stream>, ghost shortest: nat)
    returns (i: nat, text: string, ghost row: A.Row)
    requires Pickable(list, shortest) && ValidTable(seeds[..])
    modifies seeds
    ensures Drew(old(seeds[..]), row, seeds[..], sd) && |row| == 1
    ensures i < |list| && text == list[i].text && |text| >= shortest
    ensures Picks(list, sd, old(seeds[..]), i) && FromList(list, sd, old(seeds[..]), text)
  {
    hide AfterDraw, Scaled, ValidTable, Cumulative, IsDrawn;
    row := [PickDraw(list, sd)];
    var place, target, _ := PickStr(list, sd, seeds);
    i, text := place, target;
    OneDraw(old(seeds[..]), PickDraw(list, sd));
  }

  lemma OneDraw(s: seq<Stream>, d: Draw)
    requires ValidTable(s)
    ensures ValidTable(AfterDraw(s, d)) && A.AfterDraws(s, [d]) == AfterDraw(s, d)
  {
    NoDraws(s);
    OneMoreDraw(s, [], d);
    assert [] + [d] == [d];
  }

  // ----- phrases, sentences and comments -----

  /** The least length of a phrase: its words, their punctuation and a space after each. */
  function Shortest(form: seq<Word>): (n: nat)
  {
    if form == [] then 0
    else Shortest(form[..|form| - 1]) + ShortestWord(form[|form| - 1].kind) + |form[|form| - 1].filler| + 1
  }

  function ShortestWord(kind: Kind): nat
  {
    match kind
    case ANoun => 5
    case AnAdjective => 3
    case AnAdverb => 4
    case AVerb => 3
    case AnAuxiliary => 2
  }

  /** A word, its punctuation and a space. */
  function WithSpace(word: string, filler: string): (text: string)
    ensures |text| == |word| + |filler| + 1 && text[|text| - 1] == ' '
  {
    word + filler + " "
  }

  /** The words of a form with their punctuation, and a space after each. */
  function Spelled(form: seq<Word>, words: seq<string>): (text: string)
    requires |form| == |words|
  {
    if form == [] then ""
    else
      var n := |form| - 1;
      Spelled(form[..n], words[..n]) + WithSpace(words[n], form[n].filler)
  }

  /** It spells any two stretches of words one after the other. */
  lemma {:induction false} SpelledTogether(form: seq<Word>, words: seq<string>, form': seq<Word>, words': seq<string>)
    requires |form| == |words| && |form'| == |words'|
    ensures |form| == 1 ==> Spelled(form, words) == words[0] + form[0].filler + " "
    ensures Spelled(form + form', words + words') == Spelled(form, words) + Spelled(form', words')
  {
    if |form| == 1 { OneWord(form, words); }
    hide WithSpace;
    if form' == [] {
      assert form + form' == form && words + words' == words;
    } else {
      var n, m := |form'| - 1, |form| + |form'| - 1;
      assert (form + form')[..m] == form + form'[..n] && (words + words')[..m] == words + words'[..n];
      SpelledTogether(form, words, form'[..n], words'[..n]);
      Regroup(Spelled(form, words), Spelled(form'[..n], words'[..n]), WithSpace(words'[n], form'[n].filler));
    }
  }

  lemma OneWord(form: seq<Word>, words: seq<string>)
    requires |form| == 1 == |words|
    ensures Spelled(form, words) == words[0] + form[0].filler + " "
  {
    assert Spelled(form[..0], words[..0]) == "";
  }

  lemma Regroup(x: string, y: string, z: string)
    ensures (x + y) + z == x + (y + z)
  {
  }

  ghost predicate IsWord(d: Lists, kind: Kind, sd: int, s: seq<Stream>, word: string)
    requires Listed(d) && ValidTable(s)
  {
    FromList(ListFor(d, kind), sd, s, word)
  }

  /** Each word is drawn from the list of its kind, one draw after the other. */
  ghost predicate AreWords(d: Lists, form: seq<Word>, sd: int, s: seq<Stream>, row: A.Row, words: seq<string>)
    requires Listed(d) && ValidTable(s)
  {
    |form| == |words| == |row|
    && forall k :: 0 <= k < |words| ==> IsWord(d, form[k].kind, sd, A.AfterDraws(s, row[..k]), words[k])
  }

  lemma OneMoreWord(d: Lists, form: seq<Word>, sd: int, s: seq<Stream>, row: A.Row, words: seq<string>, w: Word,
                    drawn: A.Row, word: string)
    requires Listed(d) && ValidTable(s) && AreWords(d, form, sd, s, row, words) && |drawn| == 1
    requires IsWord(d, w.kind, sd, A.AfterDraws(s, row), word)
    ensures AreWords(d, form + [w], sd, s, row + drawn, words + [word])
  {
    hide IsWord, Listed, ValidTable, A.AfterDraws;
    assert (row + drawn)[..|row|] == row && forall k :: 0 <= k < |row| ==> (row + drawn)[..k] == row[..k];
  }

  lemma OneMoreSpelled(form: seq<Word>, words: seq<string>, w: Word, word: string)
    requires |form| == |words|
    ensures Spelled(form + [w], words + [word]) == Spelled(form, words) + WithSpace(word, w.filler)
  {
    hide WithSpace;
    assert (form + [w])[..|form|] == form && (words + [word])[..|form|] == words;
  }

  /** The loop of txt_np and txt_vp over the words of the chosen form. */
  method TxtWords(d: Lists, form: seq<Word>, sd: int, seeds: array<Stream>)
    returns (text: string, ghost row: A.Row, ghost words: seq<string>)
    requires Listed(d) && ValidTable(seeds[..])
    modifies seeds
    ensures Drew(old(seeds[..]), row, seeds[..], sd) && |row| == |form|
    ensures |form| == |words| && text == Spelled(form, words)
    ensures AreWords(d, form, sd, old(seeds[..]), row, words)
    ensures forall k :: 0 <= k < |words| ==>
      FromList(match form[k].kind
               case ANoun => d.nouns
               case AnAdjective => d.adjectives
               case AnAdverb => d.adverbs
               case AVerb => d.verbs
               case AnAuxiliary => d.auxiliaries,
               sd, A.AfterDraws(old(seeds[..]), row[..k]), words[k])
    ensures |text| >= Shortest(form) && (form != [] ==> |text| > 0 && text[|text| - 1] == ' ')
  {
    hide Drew, ValidTable, Listed, AreWords, Spelled, WithSpace, FromList, Picks, A.AfterDraws;
    text, row, words := "", [], [];
    DrewNothing(seeds[..], sd);
    NoWords(d, sd, seeds[..]);
    var k := 0;
    while k < |form|
      invariant 0 <= k <= |form| && ValidTable(seeds[..])
      invariant Drew(old(seeds[..]), row, seeds[..], sd) && |row| == |words| == k
      invariant text == Spelled(form[..k], words) && AreWords(d, form[..k], sd, old(seeds[..]), row, words)
      invariant |text| >= Shortest(form[..k]) && (k > 0 ==> |text| > 0 && text[|text| - 1] == ' ')
    {
      ghost var before := seeds[..];
      assert form[..k + 1] == form[..k] + [form[k]] && form[..k + 1][..k] == form[..k];
      KindsAreListed(d, form[k].kind);
      DrewIs(old(seeds[..]), row, before, sd);
      var _, word, drawn := Pick(ListFor(d, form[k].kind), sd, seeds, ShortestWord(form[k].kind));
      assert IsWord(d, form[k].kind, sd, before, word);
      OneMoreWord(d, form[..k], sd, old(seeds[..]), row, words, form[k], drawn, word);
      OneMoreSpelled(form[..k], words, form[k], word);
      DrewMore(old(seeds[..]), row, before, drawn, seeds[..], sd);
      DrewIsValid(before, drawn, seeds[..], sd);
      row, words := row + drawn, words + [word];
      text := text + WithSpace(word, form[k].filler);
      k := k + 1;
    }
    assert form[..k] == form;
    WordsAre(d, form, sd, old(seeds[..]), row, words);
  }

  lemma NoWords(d: Lists, sd: int, s: seq<Stream>)
    requires Listed(d) && ValidTable(s)
    ensures AreWords(d, [], sd, s, [], []) && Spelled([], []) == ""
  {
  }

  lemma KindsAreListed(d: Lists, kind: Kind)
    requires Listed(d)
    ensures Pickable(ListFor(d, kind), ShortestWord(kind))
  {
  }

  lemma DrewIs(before: seq<Stream>, row: A.Row, after: seq<Stream>, stream: int)
    requires Drew(before, row, after, stream)
    ensures ValidTable(before) && after == A.AfterDraws(before, row)
  {
  }

  lemma WordsAre(d: Lists, form: seq<Word>, sd: int, s: seq<Stream>, row: A.Row, words: seq<string>)
    requires Listed(d) && ValidTable(s) && AreWords(d, form, sd, s, row, words)
    ensures |form| == |words| == |row|
    ensures forall k :: 0 <= k < |words| ==>
      IsWord(d, form[k].kind, sd, A.AfterDraws(s, row[..k]), words[k])
  {
  }

  lemma DrewIsValid(before: seq<Stream>, row: A.Row, after: seq<Stream>, stream: int)
    requires Drew(before, row, after, stream)
    ensures ValidTable(after)
  {
  }

  lemma FormsAreShort(i: nat)
    ensures i < |NOUN_PHRASES| ==> 1 <= |NOUN_PHRASES[i]| <= 3 && Shortest(NOUN_PHRASES[i]) >= 6
    ensures i < |VERB_PHRASES| ==> 1 <= |VERB_PHRASES[i]| <= 3 && Shortest(VERB_PHRASES[i]) >= 4
  {
    EndsIn(NOUN_PHRASES[if i < 4 then i else 0]);
    EndsIn(VERB_PHRASES[if i < 4 then i else 0]);
    VerbPhrasesAreLong(if i < 4 then i else 0);
  }

  lemma EndsIn(form: seq<Word>)
    requires form != []
    ensures Shortest(form) >= ShortestWord(form[|form| - 1].kind) + 1
  {
  }

  lemma VerbPhrasesAreLong(i: nat)
    requires i < |VERB_PHRASES|
    ensures Shortest(VERB_PHRASES[i]) >= 4
  {
    EndsIn(VERB_PHRASES[i]);
  }

  function PhraseForm(verb: bool, i: nat): seq<Word>
    requires i < if verb then |VERB_PHRASES| else |NOUN_PHRASES|
  {
    if verb then VERB_PHRASES[i] else NOUN_PHRASES[i]
  }

  /** A phrase: the first draw chooses the form, the others its words. */
  ghost predicate IsPhrase(d: Lists, verb: bool, sd: int, s: seq<Stream>, row: A.Row, text: string)
    requires Listed(d) && ValidTable(s)
  {
    exists i: nat, words: seq<string> ::
      IsPhraseOf(d, verb, i, sd, s, row, words) && text == Spelled(PhraseForm(verb, i), words)
  }

  ghost predicate IsPhraseOf(d: Lists, verb: bool, i: nat, sd: int, s: seq<Stream>, row: A.Row, words: seq<string>)
    requires Listed(d) && ValidTable(s)
  {
    && i < |if verb then VERB_PHRASES else NOUN_PHRASES| && row != [] && |words| == |PhraseForm(verb, i)|
    && Picks(if verb then d.vp else d.np, sd, s, i)
    && AreWords(d, PhraseForm(verb, i), sd, A.AfterDraws(s, row[..1]), row[1..], words)
  }

  /** txt_np and txt_vp: the form, then its words. */
  method TxtPhrase(d: Lists, verb: bool, sd: int, seeds: array<Stream>)
    returns (text: string, ghost row: A.Row, ghost i: nat, ghost words: seq<string>)
    requires Listed(d) && ValidTable(seeds[..])
    modifies seeds
    ensures Drew(old(seeds[..]), row, seeds[..], sd) && 2 <= |row| <= 4
    ensures |text| >= (if verb then 4 else 6) && text[|text| - 1] == ' '
    ensures IsPhrase(d, verb, sd, old(seeds[..]), row, text)
    ensures i < 4 && Picks(if verb then d.vp else d.np, sd, old(seeds[..]), i)
    ensures var form := if verb then VERB_PHRASES[i] else NOUN_PHRASES[i];
      |form| == |words| && text == Spelled(form, words)
      && AreWords(d, form, sd, A.AfterDraws(old(seeds[..]), row[..1]), row[1..], words)
  {
    hide Drew, ValidTable, Shortest, AreWords, Spelled, Picks, FromList, A.AfterDraws, Pickable;
    var place, _, chosen := Pick(if verb then d.vp else d.np, sd, seeds, 0);
    i := place;
    ghost var middle := seeds[..];
    DrewIsValid(old(seeds[..]), chosen, middle, sd);
    DrewIs(old(seeds[..]), chosen, middle, sd);
    FormsAreShort(i);
    var spelled, drawn, spoken := TxtWords(d, if verb then VERB_PHRASES[place] else NOUN_PHRASES[place], sd, seeds);
    DrewMore(old(seeds[..]), chosen, middle, drawn, seeds[..], sd);
    text, row, words := spelled, chosen + drawn, spoken;
    assert row[..1] == chosen && row[1..] == drawn;
    assert IsPhraseOf(d, verb, i, sd, old(seeds[..]), row, words);
  }

  /** The most draws a part of a sentence takes. */
  function MostDraws(part: Part): nat
  {
    match part
    case Noun => 4
    case Verb => 4
    case Preposition => 5
    case Terminator => 1
  }

  /** The least length of one. A terminator takes the place of the space before it. */
  function LeastLength(part: Part): nat
  {
    match part
    case Noun => 6
    case Verb => 4
    case Preposition => 13
    case Terminator => 0
  }

  function DrawsOf(form: seq<Part>): (n: nat)
  {
    if form == [] then 0 else DrawsOf(form[..|form| - 1]) + MostDraws(form[|form| - 1])
  }

  function LengthOf(form: seq<Part>): (n: nat)
  {
    if form == [] then 0 else LengthOf(form[..|form| - 1]) + LeastLength(form[|form| - 1])
  }

  /** What one part of a sentence makes of the sentence so far. */
  ghost predicate IsPart(d: Lists, part: Part, sd: int, s: seq<Stream>, row: A.Row, sentence: string, longer: string)
    requires Listed(d) && ValidTable(s)
  {
    match part
    case Noun => exists phrase :: IsPhrase(d, false, sd, s, row, phrase) && longer == sentence + phrase
    case Verb => exists phrase :: IsPhrase(d, true, sd, s, row, phrase) && longer == sentence + phrase
    case Preposition => row != [] && exists word, phrase ::
      FromList(d.prepositions, sd, s, word) && IsPhrase(d, false, sd, A.AfterDraws(s, row[..1]), row[1..], phrase)
      && longer == sentence + word + " the " + phrase
    case Terminator => sentence != "" && exists word ::
      FromList(d.terminators, sd, s, word) && longer == sentence[..|sentence| - 1] + word
  }

  /** One turn of the scan in txt_sentence. */
  method TxtPart(d: Lists, part: Part, sentence: string, sd: int, seeds: array<Stream>)
    returns (longer: string, ghost row: A.Row, ghost word: string, ghost phrase: string)
    requires Listed(d) && ValidTable(seeds[..])
    requires part.Terminator? ==> sentence != ""
    modifies seeds
    ensures Drew(old(seeds[..]), row, seeds[..], sd) && 1 <= |row| <= MostDraws(part)
    ensures |longer| >= |sentence| + LeastLength(part)
    ensures IsPart(d, part, sd, old(seeds[..]), row, sentence, longer)
    ensures part.Noun? ==> IsPhrase(d, false, sd, old(seeds[..]), row, phrase) && longer == sentence + phrase
    ensures part.Verb? ==> IsPhrase(d, true, sd, old(seeds[..]), row, phrase) && longer == sentence + phrase
    ensures part.Preposition? ==>
      && FromList(d.prepositions, sd, old(seeds[..]), word)
      && IsPhrase(d, false, sd, A.AfterDraws(old(seeds[..]), row[..1]), row[1..], phrase)
      && longer == sentence + word + " the " + phrase
    ensures part.Terminator? ==>
      FromList(d.terminators, sd, old(seeds[..]), word) && longer == sentence[..|sentence| - 1] + word
  {
    hide Drew, ValidTable, IsPhrase, FromList, Picks, A.AfterDraws, Pickable;
    word, phrase := "", "";
    match part {
      case Noun =>
        var text, drawn, _, _ := TxtPhrase(d, false, sd, seeds);
        longer, row, phrase := sentence + text, drawn, text;
      case Verb =>
        var text, drawn, _, _ := TxtPhrase(d, true, sd, seeds);
        longer, row, phrase := sentence + text, drawn, text;
      case Preposition =>
        var _, chosen, drawn := Pick(d.prepositions, sd, seeds, 2);
        ghost var middle := seeds[..];
        DrewIsValid(old(seeds[..]), drawn, middle, sd);
        DrewIs(old(seeds[..]), drawn, middle, sd);
        var text, more, _, _ := TxtPhrase(d, false, sd, seeds);
        DrewMore(old(seeds[..]), drawn, middle, more, seeds[..], sd);
        row, word, phrase := drawn + more, chosen, text;
        assert row[..1] == drawn && row[1..] == more;
        longer := sentence + chosen + " the " + text;
      case Terminator =>
        var _, chosen, drawn := Pick(d.terminators, sd, seeds, 1);
        row, word := drawn, chosen;
        longer := sentence[..|sentence| - 1] + chosen;
    }
  }

  /** What the parts of a form make, one after the other, starting from nothing. */
  ghost predicate AreParts(d: Lists, form: seq<Part>, sd: int, s: seq<Stream>, row: A.Row, sentence: string)
    requires Listed(d) && ValidTable(s)
    decreases |form|
  {
    if form == [] then row == [] && sentence == ""
    else
      var rest, last := form[..|form| - 1], form[|form| - 1];
      exists n: nat, before ::
        n <= |row| && AreParts(d, rest, sd, s, row[..n], before)
        && IsPart(d, last, sd, A.AfterDraws(s, row[..n]), row[n..], before, sentence)
  }

  /** A sentence: the first draw chooses a form of the grammar, the others make its parts. */
  ghost predicate IsSentence(d: Lists, sd: int, s: seq<Stream>, row: A.Row, sentence: string)
    requires Listed(d) && ValidTable(s)
  {
    row != [] && exists i: nat ::
      Picks(d.grammar, sd, s, i) && i < |GRAMMAR|
      && AreParts(d, GRAMMAR[i], sd, A.AfterDraws(s, row[..1]), row[1..], sentence)
  }

  lemma OneMorePart(d: Lists, form: seq<Part>, sd: int, s: seq<Stream>, row: A.Row, sentence: string,
                    part: Part, drawn: A.Row, longer: string)
    requires Listed(d) && ValidTable(s) && AreParts(d, form, sd, s, row, sentence)
    requires IsPart(d, part, sd, A.AfterDraws(s, row), drawn, sentence, longer)
    ensures AreParts(d, form + [part], sd, s, row + drawn, longer)
  {
    hide IsPart, ValidTable, Listed, A.AfterDraws;
    assert (form + [part])[..|form|] == form;
    assert (row + drawn)[..|row|] == row && (row + drawn)[|row|..] == drawn;
  }

  lemma NoParts(d: Lists, sd: int, s: seq<Stream>)
    requires Listed(d) && ValidTable(s)
    ensures AreParts(d, [], sd, s, [], "")
  {
  }

  /** txt_sentence: a form of the grammar, then its parts. */
  method TxtSentence(d: Lists, sd: int, seeds: array<Stream>) returns (sentence: string, ghost row: A.Row)
    requires Listed(d) && ValidTable(seeds[..])
    modifies seeds
    ensures Drew(old(seeds[..]), row, seeds[..], sd) && |row| <= 20
    ensures |sentence| >= 10
    ensures IsSentence(d, sd, old(seeds[..]), row, sentence)
  {
    hide Drew, ValidTable, DrawsOf, LengthOf, AreParts, IsPart, IsPhrase, FromList, Picks, A.AfterDraws, Pickable;
    var i, _, chosen := Pick(d.grammar, sd, seeds, 0);
    ghost var middle := seeds[..];
    DrewIsValid(old(seeds[..]), chosen, middle, sd);
    DrewIs(old(seeds[..]), chosen, middle, sd);
    DrewNothing(middle, sd);
    ghost var parts: A.Row := [];
    sentence := "";
    var form := GRAMMAR[i];
    FormsFit(i);
    NoPart();
    NoParts(d, sd, middle);
    var k := 0;
    while k < |form|
      invariant 0 <= k <= |form| && ValidTable(seeds[..])
      invariant Drew(middle, parts, seeds[..], sd) && |parts| <= DrawsOf(form[..k])
      invariant AreParts(d, form[..k], sd, middle, parts, sentence)
      invariant |sentence| >= LengthOf(form[..k])
    {
      ghost var before := seeds[..];
      DrewIs(middle, parts, before, sd);
      NextPart(form, k);
      if form[k].Terminator? {
        SomePartBefore(i, k);
      }
      var longer, drawn, _, _ := TxtPart(d, form[k], sentence, sd, seeds);
      OneMorePart(d, form[..k], sd, middle, parts, sentence, form[k], drawn, longer);
      assert form[..k] + [form[k]] == form[..k + 1];
      DrewMore(middle, parts, before, drawn, seeds[..], sd);
      DrewIsValid(before, drawn, seeds[..], sd);
      sentence, parts := longer, parts + drawn;
      k := k + 1;
    }
    assert form[..k] == form;
    row := chosen + parts;
    DrewMore(old(seeds[..]), chosen, middle, parts, seeds[..], sd);
    assert row[..1] == chosen && row[1..] == parts;
  }

  lemma NoPart()
    ensures DrawsOf([]) == 0 && LengthOf([]) == 0
  {
  }

  lemma NextPart(form: seq<Part>, k: nat)
    requires k < |form|
    ensures DrawsOf(form[..k + 1]) == DrawsOf(form[..k]) + MostDraws(form[k])
    ensures LengthOf(form[..k + 1]) == LengthOf(form[..k]) + LeastLength(form[k])
  {
    assert form[..k + 1][..k] == form[..k];
  }

  lemma FirstParts(i: nat)
    requires i < |GRAMMAR|
    ensures var form := GRAMMAR[i];
      |form| >= 3 && form[0] == Noun && LengthOf(form[..1]) == 6 && DrawsOf(form[..1]) == 4
  {
    hide DrawsOf, LengthOf;
    var form := GRAMMAR[i];
    assert form[..0] == [];
    NoPart();
    NextPart(form, 0);
  }

  lemma {:induction false} LengthsGrow(form: seq<Part>, j: nat, k: nat)
    requires j <= k <= |form|
    ensures LengthOf(form[..j]) <= LengthOf(form[..k])
    decreases k - j
  {
    hide DrawsOf, LengthOf;
    if j < k {
      NextPart(form, k - 1);
      LengthsGrow(form, j, k - 1);
    }
  }

  /** A terminator never comes first: every form begins with a noun phrase. */
  lemma SomePartBefore(i: nat, k: nat)
    requires i < |GRAMMAR| && k < |GRAMMAR[i]| && GRAMMAR[i][k].Terminator?
    ensures LengthOf(GRAMMAR[i][..k]) >= 6
  {
    hide DrawsOf, LengthOf;
    FirstParts(i);
    LengthsGrow(GRAMMAR[i], 1, k);
  }

  /** The longest form takes 19 draws after the one that chooses it; the shortest makes ten characters. */
  lemma FormsFit(i: nat)
    requires i < |GRAMMAR|
    ensures DrawsOf(GRAMMAR[i]) <= 19 && LengthOf(GRAMMAR[i]) >= 10
  {
    hide DrawsOf, LengthOf;
    var form := GRAMMAR[i];
    FirstParts(i);
    NextPart(form, 1);
    NextPart(form, 2);
    if |form| > 3 { NextPart(form, 3); }
    if |form| > 4 { NextPart(form, 4); }
    assert form[..|form|] == form;
  }

  /** The most draws of a comment: one for its length, and twenty for each sentence of ten letters and a space. */
  function CommentDraws(length: nat): (n: nat)
  {
    1 + 20 * ((length + 10) / 11)
  }

  /** So many sentences, with a space after each. */
  ghost predicate AreSentences(d: Lists, sd: int, s: seq<Stream>, row: A.Row, count: nat, text: string)
    requires Listed(d) && ValidTable(s)
    decreases count
  {
    if count == 0 then row == [] && text == ""
    else exists n: nat, before, sentence ::
      n <= |row| && AreSentences(d, sd, s, row[..n], count - 1, before)
      && IsSentence(d, sd, A.AfterDraws(s, row[..n]), row[n..], sentence) && text == before + sentence + " "
  }

  lemma OneMoreSentence(d: Lists, sd: int, s: seq<Stream>, row: A.Row, count: nat, text: string,
                        drawn: A.Row, sentence: string)
    requires Listed(d) && ValidTable(s) && AreSentences(d, sd, s, row, count, text)
    requires IsSentence(d, sd, A.AfterDraws(s, row), drawn, sentence)
    ensures AreSentences(d, sd, s, row + drawn, count + 1, text + sentence + " ")
  {
    hide IsSentence, ValidTable, Listed, A.AfterDraws;
    assert (row + drawn)[..|row|] == row && (row + drawn)[|row|..] == drawn;
  }

  lemma NoSentences(d: Lists, sd: int, s: seq<Stream>)
    requires Listed(d) && ValidTable(s)
    ensures AreSentences(d, sd, s, [], 0, "")
  {
  }

  /** dbg_text: the first draw gives the length; sentences until it is reached, the last one cut off. */
  method DbgText(d: Lists, min: nat, max: nat, sd: int, seeds: array<Stream>)
    returns (tgt: string, ghost row: A.Row, ghost sentences: nat, ghost whole: string)
    requires Listed(d) && min <= max && ValidTable(seeds[..])
    modifies seeds
    ensures Drew(old(seeds[..]), row, seeds[..], sd)
    ensures min <= |tgt| <= max && 1 <= |row| <= CommentDraws(|tgt|)
    ensures row[0] == Draw(sd, min, max) && IsDrawn(old(seeds[..]), Draw(sd, min, max), |tgt|)
    ensures AreSentences(d, sd, A.AfterDraws(old(seeds[..]), row[..1]), row[1..], sentences, whole)
    ensures |tgt| <= |whole| && tgt == whole[..|tgt|]
  {
    hide Drew, ValidTable, AfterDraw, Scaled, IsDrawn, IsSentence, AreSentences, A.AfterDraws;
    DrewOne(seeds[..], Draw(sd, min, max));
    OneDraw(seeds[..], Draw(sd, min, max));
    var length := DssRandom(Draw(sd, min, max), seeds);
    ghost var middle := seeds[..];
    DrewNothing(middle, sd);
    NoSentences(d, sd, middle);
    ghost var drawnSoFar: A.Row := [];
    tgt, whole, sentences := "", "", 0;
    var wordlen := 0;
    while wordlen < length
      invariant 0 <= wordlen == |tgt| <= length && ValidTable(seeds[..])
      invariant Drew(middle, drawnSoFar, seeds[..], sd) && |drawnSoFar| <= 20 * sentences
      invariant AreSentences(d, sd, middle, drawnSoFar, sentences, whole)
      invariant |tgt| <= |whole| && tgt == whole[..|tgt|] && (wordlen < length ==> tgt == whole)
      invariant 11 * sentences <= wordlen + (if wordlen < length then 0 else 10)
      decreases length - wordlen
    {
      ghost var before := seeds[..];
      DrewIs(middle, drawnSoFar, before, sd);
      var sentence, drawn := TxtSentence(d, sd, seeds);
      OneMoreSentence(d, sd, middle, drawnSoFar, sentences, whole, drawn, sentence);
      DrewMore(middle, drawnSoFar, before, drawn, seeds[..], sd);
      DrewIsValid(before, drawn, seeds[..], sd);
      drawnSoFar, sentences, whole := drawnSoFar + drawn, sentences + 1, whole + sentence + " ";
      var needed := length - wordlen;
      if needed >= |sentence| + 1 {
        tgt := tgt + sentence + " ";
        wordlen := wordlen + |sentence| + 1;
      } else {
        tgt := tgt + sentence[..needed];
        wordlen := wordlen + needed;
      }
    }
    assert sentences <= (length + 10) / 11;
    row := [Draw(sd, min, max)] + drawnSoFar;
    DrewMore(old(seeds[..]), [Draw(sd, min, max)], middle, drawnSoFar, seeds[..], sd);
    assert row[..1] == [Draw(sd, min, max)] && row[1..] == drawnSoFar;
  }

  lemma DrewOne(s: seq<Stream>, d: Draw)
    requires ValidTable(s)
    ensures Drew(s, [d], AfterDraw(s, d), d.stream) && ValidTable(AfterDraw(s, d))
  {
    OneDraw(s, d);
  }
}
