/** The note-field builder of the Anki exporter: letter blanking, the HTML
    serialisation of a word record into the five card fields, and the rule that
    picks which empty fields of an existing note to fill. */
module Cards {
  import opened Wrappers
  import opened Text
  import opened Patterns
  import opened Records

  // ----- blanking -----

  /** The replacement `replace_alnum_with_underscores` makes for each character of a match. */
  function AlnumBlank(c: char): char {
    if IsAlnum(c) then '_' else c
  }

  /** `replace_alnum_with_underscores` applied to the matched text `w`. */
  function ReplaceAlnum(w: string): (r: string)
    ensures |r| == |w|
  {
    seq(|w|, i requires 0 <= i < |w| => AlnumBlank(w[i]))
  }

  /** Every alphanumeric character becomes `_`, every other one is kept, none is
      left, and blanking twice is blanking once. */
  lemma ReplaceAlnumSpec(w: string)
    ensures forall i :: 0 <= i < |w| ==>
      (IsAlnum(w[i]) ==> ReplaceAlnum(w)[i] == '_') && (!IsAlnum(w[i]) ==> ReplaceAlnum(w)[i] == w[i])
    ensures forall i :: 0 <= i < |w| ==> !IsAlnum(ReplaceAlnum(w)[i])
    ensures ReplaceAlnum(ReplaceAlnum(w)) == ReplaceAlnum(w)
  {
  }

  /** The per-character rule of `blank_out_all_words`: letters become `_`. */
  function LetterBlank(c: char): char {
    if IsAlpha(c) then '_' else c
  }

  /** Every letter of `s` replaced by `_`. */
  function BlankLetters(s: string): (r: string)
    ensures |r| == |s|
  {
    seq(|s|, i requires 0 <= i < |s| => LetterBlank(s[i]))
  }

  lemma BlankLettersConcat(a: string, b: string)
    ensures BlankLetters(a + b) == BlankLetters(a) + BlankLetters(b)
  {
    assert forall i :: 0 <= i < |a + b| ==> BlankLetters(a + b)[i] == (BlankLetters(a) + BlankLetters(b))[i];
  }

  /** Blanking each space-free word and joining them with spaces blanks the joined text,
      because a space is not a letter. */
  lemma {:induction false} BlankJoin(ws: seq<string>, bs: seq<string>)
    requires |bs| == |ws|
    requires forall i :: 0 <= i < |ws| ==> bs[i] == BlankLetters(ws[i])
    ensures Join(" ", bs) == BlankLetters(Join(" ", ws))
  {
    if |ws| > 1 {
      BlankJoin(ws[1..], bs[1..]);
      BlankLettersConcat(ws[0] + " ", Join(" ", ws[1..]));
      BlankLettersConcat(ws[0], " ");
      assert BlankLetters(" ") == " ";
    }
  }

  /** `blank_out_all_words`: the sentence split at single spaces, each word's
      letters replaced by `_`, and the words joined back with single spaces. */
  method BlankOutAllWords(sentence: string) returns (r: string)
    ensures r == BlankLetters(sentence)
  {
    if sentence == "" {
      return "";
    }
    var words := Split(sentence, ' ');
    var blanked: seq<string> := [];
    for k := 0 to |words|
      invariant |blanked| == k
      invariant forall i :: 0 <= i < k ==> blanked[i] == BlankLetters(words[i])
    {
      blanked := blanked + [BlankLetters(words[k])];
    }
    r := Join(" ", blanked);
    BlankJoin(words, blanked);
  }

  /** Letters become `_` and every other character, the spaces included, stays. */
  lemma BlankLettersSpec(s: string)
    ensures forall i :: 0 <= i < |s| ==>
      (IsAlpha(s[i]) ==> BlankLetters(s)[i] == '_') && (!IsAlpha(s[i]) ==> BlankLetters(s)[i] == s[i])
    ensures s == "" ==> BlankLetters(s) == ""
  {
  }

  /** The documented example: "Hello world!" becomes "_____ _____!". */
  lemma BlankLettersExample()
    ensures BlankLetters("Hello world!") == "_____ _____!"
  {
  }

  // ----- the blanking substitution -----

  /** `r` is `s` with some alphanumeric characters turned into `_` and nothing else changed. */
  predicate BlanksOf(r: string, s: string) {
    |r| == |s| && forall i :: 0 <= i < |r| ==> r[i] == s[i] || (r[i] == '_' && IsAlnum(s[i]))
  }

  lemma BlanksOfConcat(r1: string, s1: string, r2: string, s2: string)
    requires BlanksOf(r1, s1) && BlanksOf(r2, s2)
    ensures BlanksOf(r1 + r2, s1 + s2)
  {
    assert forall i :: |r1| <= i < |r1 + r2| ==> (r1 + r2)[i] == r2[i - |r1|] && (s1 + s2)[i] == s2[i - |r1|];
  }

  /** The substitution with `ReplaceAlnum` keeps the length and changes a
      character only by turning an alphanumeric into `_`. */
  lemma {:induction false} SubBlanksOnly(s: string, t: string, bounded: bool, p: nat)
    requires p <= |s|
    ensures BlanksOf(SubFrom(s, t, bounded, ReplaceAlnum, p), s[p..])
    decreases |s| - p
  {
    if MatchAt(s, t, bounded, p) && t != "" {
      SubBlanksOnly(s, t, bounded, p + |t|);
      SubBlanksMatched(s, t, bounded, p);
    } else if p < |s| {
      SubBlanksOnly(s, t, bounded, p + 1);
      SubBlanksCopied(s, t, bounded, p);
    }
  }

  /** A non-empty match is blanked and the scan resumes after it. */
  lemma SubBlanksMatched(s: string, t: string, bounded: bool, p: nat)
    requires MatchAt(s, t, bounded, p) && t != ""
    requires BlanksOf(SubFrom(s, t, bounded, ReplaceAlnum, p + |t|), s[p + |t|..])
    ensures BlanksOf(SubFrom(s, t, bounded, ReplaceAlnum, p), s[p..])
  {
    var m := s[p..p + |t|];
    var rest := SubFrom(s, t, bounded, ReplaceAlnum, p + |t|);
    assert SubFrom(s, t, bounded, ReplaceAlnum, p) == ReplaceAlnum(m) + rest;
    assert BlanksOf(ReplaceAlnum(m), m);
    BlanksOfConcat(ReplaceAlnum(m), m, rest, s[p + |t|..]);
    assert s[p..] == m + s[p + |t|..];
  }

  /** Without a non-empty match at `p` the character at `p` is copied; an empty
      match adds nothing of its own. */
  lemma SubBlanksCopied(s: string, t: string, bounded: bool, p: nat)
    requires p < |s| && !(MatchAt(s, t, bounded, p) && t != "")
    requires BlanksOf(SubFrom(s, t, bounded, ReplaceAlnum, p + 1), s[p + 1..])
    ensures BlanksOf(SubFrom(s, t, bounded, ReplaceAlnum, p), s[p..])
  {
    var rest := SubFrom(s, t, bounded, ReplaceAlnum, p + 1);
    if MatchAt(s, t, bounded, p) {
      assert ReplaceAlnum(s[p..p + |t|]) == "";
      assert SubFrom(s, t, bounded, ReplaceAlnum, p) == "" + ([s[p]] + rest);
    }
    assert SubFrom(s, t, bounded, ReplaceAlnum, p) == [s[p]] + rest;
    BlanksOfConcat([s[p]], [s[p]], rest, s[p + 1..]);
    assert s[p..] == [s[p]] + s[p + 1..];
  }

  /** Text before the first match is copied and the first match itself is blanked. */
  lemma SubBlanksFirstMatch(s: string, t: string, bounded: bool, q: nat)
    requires t != "" && MatchAt(s, t, bounded, q)
    requires forall k :: 0 <= k < q ==> !MatchAt(s, t, bounded, k)
    ensures |Sub(s, t, bounded, ReplaceAlnum)| == |s|
    ensures Sub(s, t, bounded, ReplaceAlnum)[..q] == s[..q]
    ensures Sub(s, t, bounded, ReplaceAlnum)[q..q + |t|] == ReplaceAlnum(s[q..q + |t|])
  {
    SubBlanksOnly(s, t, bounded, 0);
    SubFromFirst(s, t, bounded, ReplaceAlnum, 0, q);
    var rest := SubFrom(s, t, bounded, ReplaceAlnum, q + |t|);
    var r := s[..q] + (ReplaceAlnum(s[q..q + |t|]) + rest);
    assert Sub(s, t, bounded, ReplaceAlnum) == r;
    assert r[..q] == s[..q];
    assert r[q..q + |t|] == ReplaceAlnum(s[q..q + |t|]);
  }

  // ----- the five note fields -----

  /** The dict `build_html_from_word_info` returns: always exactly these keys. */
  datatype CardFields = CardFields(
    posDefinitions: string, pronunciation: string, definition: string,
    examples: string, blankedExamples: string)

  const FieldNames: seq<string> := ["POS_Definitions", "Pronunciation", "Definition", "Examples", "Blanked_Examples"]

  /** `generated_fields.get(name, "")`. */
  function FieldValue(g: CardFields, name: string): (r: string)
    ensures name !in FieldNames ==> r == ""
  {
    if name == "POS_Definitions" then g.posDefinitions
    else if name == "Pronunciation" then g.pronunciation
    else if name == "Definition" then g.definition
    else if name == "Examples" then g.examples
    else if name == "Blanked_Examples" then g.blankedExamples
    else ""
  }

  function PosTitle(kind: string): string {
    "<div class='pos-title'>" + Capitalize(HtmlEscape(kind)) + "</div>"
  }

  /** The title the first pass puts in front of pronunciation and definition lines:
      none for an empty part-of-speech label. */
  function ShortTitle(p: PartOfSpeech): string {
    if p.kind != "" then PosTitle(p.kind) else ""
  }

  /** The UK and US phonetics; an idiom dict has no pronunciation keys, read as "". */
  function Phonetics(p: PartOfSpeech): (string, string) {
    match p
    case Entry(_, _, uk, us, _, _, _) => (uk.phonetic, us.phonetic)
    case Idiom(_, _, _) => ("", "")
  }

  /** The Pronunciation line of one part of speech, when it has any phonetic. */
  function PronunciationLine(p: PartOfSpeech): Option<string> {
    var (uk, us) := Phonetics(p);
    if uk != "" || us != "" then
      Some("<div>" + ShortTitle(p) + "UK: " + HtmlEscape(uk) + " | US: " + HtmlEscape(us) + "</div>")
    else None
  }

  function DefinitionItem(m: Meaning): string {
    "<li><div class='definition-en'>" + HtmlEscape(Strip(m.enMeaning))
    + "</div><div class='definition-ch'>" + HtmlEscape(Strip(m.chMeaning)) + "</div></li>"
  }

  function Concat(xs: seq<string>): string {
    if xs == [] then "" else Concat(xs[..|xs| - 1]) + xs[|xs| - 1]
  }

  /** `f` applied to each element of `xs`. */
  function Mapped<T, U>(xs: seq<T>, f: T -> U): (r: seq<U>)
    ensures |r| == |xs|
    ensures forall i :: 0 <= i < |xs| ==> r[i] == f(xs[i])
  {
    seq(|xs|, i requires 0 <= i < |xs| => f(xs[i]))
  }

  /** A loop appending `f(x)` to `base` for each `x` of `xs` in turn. */
  method AppendEach<T, U>(base: seq<U>, xs: seq<T>, f: T -> U) returns (r: seq<U>)
    ensures r == base + Mapped(xs, f)
  {
    r := base;
    for k := 0 to |xs|
      invariant r == base + Mapped(xs, f)[..k]
    {
      assert Mapped(xs, f)[..k + 1] == Mapped(xs, f)[..k] + [f(xs[k])];
      r := r + [f(xs[k])];
    }
  }

  function DefinitionItems(defs: seq<Meaning>): seq<string> {
    Mapped(defs, DefinitionItem)
  }

  /** The Definition block of one part of speech, when it has definitions. */
  function DefinitionBlock(p: PartOfSpeech): Option<string> {
    if p.definitions == [] then None
    else Some(Concat([ShortTitle(p), "<ul>"] + DefinitionItems(p.definitions) + ["</ul>"]))
  }

  /** One audio row: emitted when the phonetic or the URL is non-empty, with an
      audio element only when the URL is. */
  function AudioRow(side: string, pr: Pronunciation): Option<string> {
    if pr.phonetic != "" || pr.pronUrl != "" then
      Some("<div class='audio-row'>" + side + ": " + HtmlEscape(pr.phonetic)
           + (if pr.pronUrl != "" then " <audio controls src=\"" + HtmlEscape(pr.pronUrl) + "\"></audio>" else "")
           + "</div>")
    else None
  }

  function Listed(o: Option<string>): seq<string> {
    if o.Some? then [o.value] else []
  }

  function AudioLines(p: PartOfSpeech): seq<string> {
    match p
    case Entry(_, _, uk, us, _, _, _) => Listed(AudioRow("UK", uk)) + Listed(AudioRow("US", us))
    case Idiom(_, _, _) => []
  }

  function DefinitionLines(defs: seq<Meaning>): seq<string> {
    if defs == [] then [] else ["<ul>"] + DefinitionItems(defs) + ["</ul>"]
  }

  /** `phrase_defs[i] if i < len(phrase_defs) else {}`. */
  function PhraseDefinitionAt(pdefs: seq<Meaning>, i: nat): Meaning {
    if i < |pdefs| then pdefs[i] else Meaning("", "")
  }

  function PhraseItem(phrase: string, m: Meaning): string {
    "<li><span class='phrase'>" + HtmlEscape(phrase) + "</span> \U{2014} <span class='definition-en'>"
    + HtmlEscape(Strip(m.enMeaning)) + "</span><div class='definition-ch'>"
    + HtmlEscape(Strip(m.chMeaning)) + "</div></li>"
  }

  /** `enumerate(phrases)` with each phrase's definition looked up by its index. */
  function PhrasePairs(phrases: seq<string>, pdefs: seq<Meaning>): (r: seq<(string, Meaning)>)
    ensures |r| == |phrases|
    ensures forall i :: 0 <= i < |phrases| ==> r[i] == (phrases[i], PhraseDefinitionAt(pdefs, i))
  {
    seq(|phrases|, i requires 0 <= i < |phrases| => (phrases[i], PhraseDefinitionAt(pdefs, i)))
  }

  function PhraseEntry(pair: (string, Meaning)): string {
    PhraseItem(pair.0, pair.1)
  }

  function PhraseItems(phrases: seq<string>, pdefs: seq<Meaning>): seq<string> {
    Mapped(PhrasePairs(phrases, pdefs), PhraseEntry)
  }

  /** Phrase `i` is shown with `phraseDefinitions[i]`, or with an empty meaning
      when that list is shorter; there is one item per phrase. */
  lemma PhrasePairing(phrases: seq<string>, pdefs: seq<Meaning>, i: nat)
    requires i < |phrases|
    ensures |PhraseItems(phrases, pdefs)| == |phrases|
    ensures i < |pdefs| ==> PhraseItems(phrases, pdefs)[i] == PhraseItem(phrases[i], pdefs[i])
    ensures i >= |pdefs| ==> PhraseItems(phrases, pdefs)[i] == PhraseItem(phrases[i], Meaning("", ""))
  {
    var pair := PhrasePairs(phrases, pdefs)[i];
    assert PhraseItems(phrases, pdefs)[i] == PhraseItem(pair.0, pair.1);
    assert pair == (phrases[i], PhraseDefinitionAt(pdefs, i));
  }

  function PhraseLines(p: PartOfSpeech): seq<string> {
    match p
    case Entry(_, _, _, _, _, phrases, pdefs) =>
      if phrases == [] then []
      else ["<div><b>Phrases:</b><ul>"] + PhraseItems(phrases, pdefs) + ["</ul></div>"]
    case Idiom(_, _, _) => []
  }

  function PartLines(p: PartOfSpeech): seq<string> {
    [PosTitle(p.kind)] + AudioLines(p) + DefinitionLines(p.definitions) + PhraseLines(p)
  }

  /** The POS_Definitions block of one part of speech. */
  function PosBlock(p: PartOfSpeech): string {
    "<div>" + Join("\n", PartLines(p)) + "</div>"
  }

  // ----- examples -----

  /** `s.get("text") or word`: the token to highlight and blank. */
  function HighlightTarget(s: Sentence, word: string): string {
    if s.text.Some? && s.text.value != "" then s.text.value else word
  }

  function Strong(m: string): string {
    "<strong>" + m + "</strong>"
  }

  /** The escaped sentence with every whole-word, case-insensitive occurrence of
      the escaped, stripped target wrapped in `<strong>`. */
  function Highlighted(text: string, target: string): string {
    var escaped := HtmlEscape(text);
    if target != "" then Sub(escaped, HtmlEscape(Strip(target)), true, Strong) else escaped
  }

  /** Highlighting copies the escaped sentence up to the first whole-word match of
      the pattern `t`, the escaped and stripped target, wraps that match in
      `<strong>` and goes on after it. */
  lemma HighlightedFirstMatch(text: string, target: string, t: string, q: nat)
    requires t == HtmlEscape(Strip(target)) && t != ""
    requires MatchAt(HtmlEscape(text), t, true, q)
    requires forall k :: 0 <= k < q ==> !MatchAt(HtmlEscape(text), t, true, k)
    ensures var e := HtmlEscape(text);
      Highlighted(text, target) == e[..q] + Strong(e[q..q + |t|]) + SubFrom(e, t, true, Strong, q + |t|)
  {
    assert target != "";
    StrongFirstMatch(HtmlEscape(text), t, q);
  }

  /** `SubFirstMatch` with `<strong>` wrapping as the replacement. */
  lemma StrongFirstMatch(e: string, t: string, q: nat)
    requires t != "" && MatchAt(e, t, true, q)
    requires forall k :: 0 <= k < q ==> !MatchAt(e, t, true, k)
    ensures Sub(e, t, true, Strong) == e[..q] + Strong(e[q..q + |t|]) + SubFrom(e, t, true, Strong, q + |t|)
  {
    SubFirstMatch(e, t, true, Strong, q);
  }

  /** Without a whole-word match of the escaped, stripped target the sentence is
      only escaped. */
  lemma HighlightedUnmatched(text: string, target: string)
    requires forall q :: 0 <= q <= |HtmlEscape(text)| ==> !MatchAt(HtmlEscape(text), HtmlEscape(Strip(target)), true, q)
    ensures Highlighted(text, target) == HtmlEscape(text)
  {
    var e := HtmlEscape(text);
    if target != "" {
      SubFromUnmatched(e, HtmlEscape(Strip(target)), true, Strong, 0);
      assert e[0..] == e;
    }
  }

  /** The pattern for blanking is the escaped, stripped target, whole-word only when
      the target has no space; it is applied to the raw sentence, which is escaped
      afterwards. */
  function BlankedSentence(text: string, target: string): string {
    HtmlEscape(Sub(text, HtmlEscape(Strip(target)), ' ' !in target, ReplaceAlnum))
  }

  function Meta(book: string): string {
    if book != "" then " \U{2014} \U{300a}" + HtmlEscape(book) + "\U{300b}" else ""
  }

  function ExampleDiv(text: string, meta: string): string {
    "<div class='example'><div class='example-text'>" + text + "</div><div class='example-meta'>"
    + meta + "</div></div>"
  }

  /** The Examples entry and the Blanked_Examples entry of one sentence, or none
      when its notes are blank. */
  function ExamplePair(s: Sentence, word: string): Option<(string, string)> {
    var text := Strip(s.notes);
    if text == "" then None
    else
      var target := HighlightTarget(s, word);
      Some((ExampleDiv(Highlighted(text, target), Meta(s.bookName)),
            ExampleDiv(BlankedSentence(text, target), Meta(s.bookName))))
  }

  function ExampleEntry(s: Sentence, word: string): Option<string> {
    var pair := ExamplePair(s, word);
    if pair.Some? then Some(pair.value.0) else None
  }

  function BlankedEntry(s: Sentence, word: string): Option<string> {
    var pair := ExamplePair(s, word);
    if pair.Some? then Some(pair.value.1) else None
  }

  // ----- gathering over a list -----

  /** The values `f` produces along `xs`, in order, skipping `None`. */
  function Gathered<T, U>(xs: seq<T>, f: T -> Option<U>): seq<U> {
    if xs == [] then []
    else
      var last := f(xs[|xs| - 1]);
      Gathered(xs[..|xs| - 1], f) + (if last.Some? then [last.value] else [])
  }

  /** The number of elements of `xs` that satisfy `p`. */
  function Count<T>(xs: seq<T>, p: T -> bool): nat {
    if xs == [] then 0 else Count(xs[..|xs| - 1], p) + (if p(xs[|xs| - 1]) then 1 else 0)
  }

  /** `Gathered` yields one value per element on which `f` is defined. */
  lemma {:induction false} GatheredCount<T, U>(xs: seq<T>, f: T -> Option<U>, p: T -> bool)
    requires forall x :: f(x).Some? <==> p(x)
    ensures |Gathered(xs, f)| == Count(xs, p)
  {
    if xs != [] {
      GatheredCount(xs[..|xs| - 1], f, p);
    }
  }

  /** Every gathered value is `f` of some element. */
  lemma {:induction false} GatheredFrom<T, U>(xs: seq<T>, f: T -> Option<U>, k: nat)
    requires k < |Gathered(xs, f)|
    ensures exists i :: 0 <= i < |xs| && f(xs[i]) == Some(Gathered(xs, f)[k])
  {
    var init := xs[..|xs| - 1];
    if k < |Gathered(init, f)| {
      GatheredFrom(init, f, k);
      var i :| 0 <= i < |init| && f(init[i]) == Some(Gathered(init, f)[k]);
      assert xs[i] == init[i];
    } else {
      assert f(xs[|xs| - 1]) == Some(Gathered(xs, f)[k]);
    }
  }

  lemma GatheredSnoc<T, U>(xs: seq<T>, k: nat, f: T -> Option<U>)
    requires k < |xs|
    ensures Gathered(xs[..k + 1], f) == Gathered(xs[..k], f) + (if f(xs[k]).Some? then [f(xs[k]).value] else [])
  {
    assert xs[..k + 1][..k] == xs[..k];
  }

  // ----- the serialiser -----

  function PronunciationParts(ps: seq<PartOfSpeech>): seq<string> {
    Gathered(ps, PronunciationLine)
  }

  function DefinitionParts(ps: seq<PartOfSpeech>): seq<string> {
    Gathered(ps, DefinitionBlock)
  }

  function PosBlocks(ps: seq<PartOfSpeech>): seq<string> {
    Mapped(ps, PosBlock)
  }

  function ExampleEntryOf(word: string): Sentence -> Option<string> {
    s => ExampleEntry(s, word)
  }

  function BlankedEntryOf(word: string): Sentence -> Option<string> {
    s => BlankedEntry(s, word)
  }

  function ExampleParts(ss: seq<Sentence>, word: string): seq<string> {
    Gathered(ss, ExampleEntryOf(word))
  }

  function BlankedParts(ss: seq<Sentence>, word: string): seq<string> {
    Gathered(ss, BlankedEntryOf(word))
  }

  lemma MappedSnoc<T, U>(xs: seq<T>, f: T -> U, k: nat)
    requires k < |xs|
    ensures Mapped(xs, f)[..k + 1] == Mapped(xs, f)[..k] + [f(xs[k])]
  {
  }

  /** The five fields of a word record. */
  function CardFieldsOf(info: WordInfo): CardFields {
    var ps := info.partOfSpeech;
    CardFields(
      Join("\n", PosBlocks(ps)),
      Join("\n", PronunciationParts(ps)),
      Join("\n", DefinitionParts(ps)),
      Join("\n", ExampleParts(info.sentences, info.word)),
      Join("\n", BlankedParts(info.sentences, info.word)))
  }

  /** The definition block of the first pass, built as a list of pieces and concatenated. */
  method DefinitionBlockOf(p: PartOfSpeech) returns (b: Option<string>)
    ensures b == DefinitionBlock(p)
  {
    var defs := p.definitions;
    if defs == [] {
      return None;
    }
    var block := AppendEach([ShortTitle(p), "<ul>"], defs, DefinitionItem);
    block := block + ["</ul>"];
    return Some(Concat(block));
  }

  /** The lines of one POS_Definitions block: title, audio rows, definitions, phrases. */
  method PartLinesOf(p: PartOfSpeech) returns (lines: seq<string>)
    ensures lines == PartLines(p)
  {
    lines := [PosTitle(p.kind)];
    var audio := AudioLines(p);
    if audio != [] {
      lines := lines + audio;
    } else {
      AppendNothing(lines);
    }
    ghost var head := lines;
    var defs := p.definitions;
    if defs != [] {
      lines := AppendEach(lines + ["<ul>"], defs, DefinitionItem);
      lines := lines + ["</ul>"];
      Regroup(head, ["<ul>"], DefinitionItems(defs), ["</ul>"]);
    } else {
      AppendNothing(head);
    }
    head := lines;
    if p.Entry? && p.phrases != [] {
      var items := PhrasePairs(p.phrases, p.phraseDefinitions);
      lines := AppendEach(lines + ["<div><b>Phrases:</b><ul>"], items, PhraseEntry);
      lines := lines + ["</ul></div>"];
      Regroup(head, ["<div><b>Phrases:</b><ul>"], PhraseItems(p.phrases, p.phraseDefinitions), ["</ul></div>"]);
    } else {
      AppendNothing(head);
    }
  }

  lemma Regroup<T>(h: seq<T>, a: seq<T>, m: seq<T>, z: seq<T>)
    ensures h + a + m + z == h + (a + m + z)
  {
  }

  lemma AppendNothing<T>(h: seq<T>)
    ensures h + [] == h
  {
  }

  /** The first pass over the parts of speech: the Pronunciation lines and the
      Definition blocks. */
  method PronunciationsAndDefinitions(ps: seq<PartOfSpeech>) returns (pronunciationParts: seq<string>, definitionParts: seq<string>)
    ensures pronunciationParts == PronunciationParts(ps)
    ensures definitionParts == DefinitionParts(ps)
  {
    pronunciationParts := [];
    definitionParts := [];
    for k := 0 to |ps|
      invariant pronunciationParts == Gathered(ps[..k], PronunciationLine)
      invariant definitionParts == Gathered(ps[..k], DefinitionBlock)
    {
      GatheredSnoc(ps, k, PronunciationLine);
      GatheredSnoc(ps, k, DefinitionBlock);
      var line := PronunciationLine(ps[k]);
      if line.Some? {
        pronunciationParts := pronunciationParts + [line.value];
      }
      var block := DefinitionBlockOf(ps[k]);
      if block.Some? {
        definitionParts := definitionParts + [block.value];
      }
    }
    assert ps[..|ps|] == ps;
  }

  /** The second pass: one POS_Definitions block per part of speech. */
  method PosDefinitions(ps: seq<PartOfSpeech>) returns (posParts: seq<string>)
    ensures posParts == PosBlocks(ps)
  {
    posParts := [];
    for k := 0 to |ps|
      invariant posParts == PosBlocks(ps)[..k]
    {
      MappedSnoc(ps, PosBlock, k);
      var lines := PartLinesOf(ps[k]);
      var block := "<div>" + Join("\n", lines) + "</div>";
      assert block == PosBlock(ps[k]);
      posParts := posParts + [block];
    }
  }

  /** The pass over the sentences: the Examples and Blanked_Examples entries. */
  method Examples(ss: seq<Sentence>, word: string) returns (examplesParts: seq<string>, blankedParts: seq<string>)
    ensures examplesParts == ExampleParts(ss, word)
    ensures blankedParts == BlankedParts(ss, word)
  {
    examplesParts := [];
    blankedParts := [];
    for k := 0 to |ss|
      invariant examplesParts == Gathered(ss[..k], ExampleEntryOf(word))
      invariant blankedParts == Gathered(ss[..k], BlankedEntryOf(word))
    {
      GatheredSnoc(ss, k, ExampleEntryOf(word));
      GatheredSnoc(ss, k, BlankedEntryOf(word));
      var pair := ExamplePair(ss[k], word);
      if pair.Some? {
        examplesParts := examplesParts + [pair.value.0];
        blankedParts := blankedParts + [pair.value.1];
      }
    }
    assert ss[..|ss|] == ss;
  }

  /** `build_html_from_word_info`: a first pass over the parts of speech for the
      Pronunciation and Definition fields, a second for POS_Definitions, and a
      pass over the sentences for Examples and Blanked_Examples, each list joined
      with newlines. */
  method BuildHtmlFromWordInfo(info: WordInfo) returns (fields: CardFields)
    ensures fields == CardFieldsOf(info)
  {
    var pronunciationParts, definitionParts := PronunciationsAndDefinitions(info.partOfSpeech);
    var posParts := PosDefinitions(info.partOfSpeech);
    var examplesParts, blankedParts := Examples(info.sentences, info.word);
    fields := CardFields(
      Join("\n", posParts), Join("\n", pronunciationParts), Join("\n", definitionParts),
      Join("\n", examplesParts), Join("\n", blankedParts));
  }

  // ----- what the fields hold -----

  predicate HasPhonetic(p: PartOfSpeech) {
    Phonetics(p).0 != "" || Phonetics(p).1 != ""
  }

  predicate HasDefinitions(p: PartOfSpeech) {
    p.definitions != []
  }

  predicate HasNotes(s: Sentence) {
    !AllSpace(s.notes)
  }

  lemma JoinHead(sep: string, xs: seq<string>)
    requires xs != []
    ensures xs[0] <= Join(sep, xs)
  {
  }

  lemma PrefixWrap<T>(a: seq<T>, b: seq<T>, c: seq<T>, d: seq<T>)
    requires b <= c
    ensures a + b <= a + c + d
  {
    assert (a + c + d)[..|a + b|] == a + c[..|b|];
  }

  /** A POS_Definitions block opens with the capitalised title of its part of speech. */
  lemma PosBlockTitled(p: PartOfSpeech)
    ensures StartsWith(PosBlock(p), "<div>" + PosTitle(p.kind))
  {
    var lines := PartLines(p);
    assert lines[0] == PosTitle(p.kind);
    JoinHead("\n", lines);
    PrefixWrap("<div>", PosTitle(p.kind), Join("\n", lines), "</div>");
  }

  /** One POS_Definitions block per part of speech, each a `<div>` opening with the
      capitalised title; one Pronunciation line per part with a phonetic; one
      Definition block per part with definitions. */
  lemma PartsCounts(ps: seq<PartOfSpeech>)
    ensures |PosBlocks(ps)| == |ps|
    ensures forall i :: 0 <= i < |ps| ==> StartsWith(PosBlocks(ps)[i], "<div>" + PosTitle(ps[i].kind))
    ensures |PronunciationParts(ps)| == Count(ps, HasPhonetic)
    ensures |DefinitionParts(ps)| == Count(ps, HasDefinitions)
  {
    GatheredCount(ps, PronunciationLine, HasPhonetic);
    GatheredCount(ps, DefinitionBlock, HasDefinitions);
    forall i | 0 <= i < |ps|
      ensures StartsWith(PosBlocks(ps)[i], "<div>" + PosTitle(ps[i].kind))
    {
      PosBlockTitled(ps[i]);
    }
  }

  /** A sentence with blank notes adds nothing; every other sentence adds exactly one
      entry to Examples and one to Blanked_Examples. */
  lemma ExampleCounts(ss: seq<Sentence>, word: string)
    ensures |ExampleParts(ss, word)| == Count(ss, HasNotes)
    ensures |BlankedParts(ss, word)| == Count(ss, HasNotes)
  {
    forall s: Sentence
      ensures ExamplePair(s, word).Some? <==> HasNotes(s)
    {
      StripEmpty(s.notes);
    }
    GatheredCount(ss, ExampleEntryOf(word), HasNotes);
    GatheredCount(ss, BlankedEntryOf(word), HasNotes);
  }

  // ----- filling empty note fields -----

  /** The fields `update_missing_fields_for_word` may fill. */
  const CheckedFields: seq<string> := ["Pronunciation", "Definition", "Blanked_Examples"]

  /** For one note with fields `current`: each checked field the note has and whose
      value is whitespace only is set to its generated value. */
  method FieldsToUpdate(current: map<string, string>, generated: CardFields) returns (updates: map<string, string>)
    ensures forall name :: name in updates <==> name in CheckedFields && name in current && AllSpace(current[name])
    ensures forall name :: name in updates ==> updates[name] == FieldValue(generated, name)
  {
    updates := map[];
    for k := 0 to |CheckedFields|
      invariant forall name :: name in updates <==> name in CheckedFields[..k] && name in current && AllSpace(current[name])
      invariant forall name :: name in updates ==> updates[name] == FieldValue(generated, name)
    {
      var name := CheckedFields[k];
      if name in current && Strip(current[name]) == "" {
        StripEmpty(current[name]);
        updates := updates[name := FieldValue(generated, name)];
      } else if name in current {
        StripEmpty(current[name]);
      }
    }
    assert CheckedFields[..|CheckedFields|] == CheckedFields;
  }
}
