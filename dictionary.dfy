/** The dictionary-result rules of code/dictionary/dict.py, over an abstract
    document tree: text extraction with whitespace collapse, audio URL
    absolutising, the scoping of definition and phrase blocks in an entry body
    and an idiom block, the "meaningful part of speech" filter, the
    first-successful-URL lookup with its placeholder, and the overlay of
    English-page pronunciations onto a Chinese-page result. */
module Dictionary {
  import opened Wrappers
  import opened Text
  import opened Records

  // ---------------------------------------------------------------------------
  // Document tree and selectors
  // ---------------------------------------------------------------------------

  /** A parsed page: text nodes and elements with a tag, a class set, attributes
      and children. */
  datatype Node =
    | TextNode(content: string)
    | Elem(tag: string, classes: set<string>, attrs: map<string, string>, children: seq<Node>)

  /** An element found by a search, together with its ancestors, outermost
      first (the chain reaches up to the document root, beyond the search scope). */
  datatype Hit = Hit(node: Node, ancestors: seq<Node>)

  /** The proper descendants of a located node, in document order. */
  function DescendantHits(h: Hit): seq<Hit>
    decreases h.node, 1
  {
    match h.node
    case TextNode(_) => []
    case Elem(_, _, _, children) => ChildHits(h.node, 0, h.ancestors + [h.node])
  }

  function ChildHits(parent: Node, i: nat, ancestors: seq<Node>): seq<Hit>
    requires parent.Elem?
    decreases parent, 0, |parent.children| - i
  {
    if i >= |parent.children| then []
    else
      var c := parent.children[i];
      [Hit(c, ancestors)] + DescendantHits(Hit(c, ancestors)) + ChildHits(parent, i + 1, ancestors)
  }

  /** One compound selector: an optional tag, required classes, an optional
      attribute that must have the given value. */
  datatype Simple = Simple(tag: Option<string>, classes: set<string>, attr: Option<(string, string)>)

  /** A selector `A B` (B with an ancestor matching A) or a plain `B`. */
  datatype Selector = Selector(within: Option<Simple>, target: Simple)

  predicate MatchesSimple(n: Node, s: Simple) {
    n.Elem?
    && (s.tag.None? || n.tag == s.tag.value)
    && s.classes <= n.classes
    && (s.attr.None? || (s.attr.value.0 in n.attrs && n.attrs[s.attr.value.0] == s.attr.value.1))
  }

  predicate Matches(h: Hit, sel: Selector) {
    MatchesSimple(h.node, sel.target)
    && (sel.within.None? ||
        exists i :: 0 <= i < |h.ancestors| && MatchesSimple(h.ancestors[i], sel.within.value))
  }

  /** A selector group `S1, S2, ...` matches when any member does. */
  predicate MatchesAny(h: Hit, group: seq<Selector>) {
    exists k :: 0 <= k < |group| && Matches(h, group[k])
  }

  /** The hits satisfying `keep`, in order. */
  function FilterHits(hs: seq<Hit>, keep: Hit -> bool): (r: seq<Hit>)
    ensures |r| <= |hs|
    decreases |hs|
  {
    if hs == [] then []
    else
      var r := FilterHits(hs[..|hs| - 1], keep);
      if keep(hs[|hs| - 1]) then r + [hs[|hs| - 1]] else r
  }

  /** Filtering keeps exactly the hits that pass the test. */
  lemma {:induction false} FilterHitsMembers(hs: seq<Hit>, keep: Hit -> bool)
    ensures forall h :: h in FilterHits(hs, keep) ==> h in hs && keep(h)
    ensures forall h :: h in hs && keep(h) ==> h in FilterHits(hs, keep)
    decreases |hs|
  {
    if hs != [] {
      var init := hs[..|hs| - 1];
      FilterHitsMembers(init, keep);
      assert forall h :: h in init ==> h in hs;
      assert forall h :: h in hs ==> h in init || h == hs[|hs| - 1];
    }
  }

  /** Filtering distributes over concatenation, so it keeps relative order. */
  lemma {:induction false} FilterHitsConcat(a: seq<Hit>, b: seq<Hit>, keep: Hit -> bool)
    ensures FilterHits(a + b, keep) == FilterHits(a, keep) + FilterHits(b, keep)
    decreases |b|
  {
    if b == [] {
      assert a + b == a;
    } else {
      var n := |b| - 1;
      assert (a + b)[..|a + b| - 1] == a + b[..n];
      FilterHitsConcat(a, b[..n], keep);
    }
  }

  /** `scope.select(group)`: matching descendants in document order. */
  function Select(scope: Hit, group: seq<Selector>): seq<Hit> {
    FilterHits(DescendantHits(scope), h => MatchesAny(h, group))
  }

  /** `scope.select_one(group)`: the first match. */
  function SelectOne(scope: Hit, group: seq<Selector>): Option<Hit> {
    var hs := Select(scope, group);
    if hs == [] then None else Some(hs[0])
  }

  /** `h.find_parent(class_=c)`: some ancestor element carries the class. */
  predicate HasAncestorClass(h: Hit, c: string) {
    exists i :: 0 <= i < |h.ancestors| && h.ancestors[i].Elem? && c in h.ancestors[i].classes
  }

  function Sel(classes: set<string>): Selector {
    Selector(None, Simple(None, classes, None))
  }

  function TagSel(tag: string, classes: set<string>): Selector {
    Selector(None, Simple(Some(tag), classes, None))
  }

  // ---------------------------------------------------------------------------
  // Text extraction and audio URLs
  // ---------------------------------------------------------------------------

  /** The text-node contents under a node, in document order. */
  function Strings(n: Node): seq<string>
    decreases n, 1
  {
    match n
    case TextNode(t) => [t]
    case Elem(_, _, _, _) => ChildStrings(n, 0)
  }

  function ChildStrings(parent: Node, i: nat): seq<string>
    requires parent.Elem?
    decreases parent, 0, |parent.children| - i
  {
    if i >= |parent.children| then []
    else Strings(parent.children[i]) + ChildStrings(parent, i + 1)
  }

  /** The stripped strings, empty ones dropped. */
  function StrippedStrings(ts: seq<string>): (r: seq<string>)
    ensures forall i :: 0 <= i < |r| ==> r[i] != ""
    decreases |ts|
  {
    if ts == [] then []
    else
      var t := Strip(ts[0]);
      (if t == "" then [] else [t]) + StrippedStrings(ts[1..])
  }

  /** `elem.get_text(separator=' ', strip=True)`. */
  function GetText(n: Node): string {
    Join(" ", StrippedStrings(Strings(n)))
  }

  /** `_text_or_empty`: "" for a missing element, otherwise its text with every
      whitespace run collapsed to one space and the ends trimmed. */
  function TextOrEmpty(e: Option<Hit>): string {
    match e
    case None => ""
    case Some(h) => Collapse(GetText(h.node))
  }

  /** Extracted text is collapsed, trimmed, and a fixed point of the collapse. */
  lemma TextOrEmptyProperties(e: Option<Hit>)
    ensures var r := TextOrEmpty(e);
      (e.None? ==> r == "")
      && Collapsed(r)
      && (r == "" || (!IsSpace(r[0]) && !IsSpace(r[|r| - 1])))
      && Collapse(r) == r
  {
    if e.Some? {
      CollapseProperties(GetText(e.value.node));
    } else {
      assert Words("") == [];
    }
  }

  const CambridgeOrigin := "https://dictionary.cambridge.org"

  predicate IsAbsoluteUrl(s: string) {
    StartsWith(s, "http://") || StartsWith(s, "https://")
  }

  /** `_abs_audio_url`: missing or empty gives "", an http(s) URL is kept, and
      anything else is prefixed with the dictionary's origin. */
  function AbsAudioUrl(src: Option<string>): (r: string)
    ensures r == "" <==> src.None? || src.value == ""
    ensures r == "" || IsAbsoluteUrl(r)
    ensures src.Some? && IsAbsoluteUrl(src.value) ==> r == src.value
    ensures src.Some? && src.value != "" && !IsAbsoluteUrl(src.value) ==>
      r == CambridgeOrigin + src.value
  {
    match src
    case None => ""
    case Some(s) =>
      if s == "" then ""
      else if IsAbsoluteUrl(s) then s
      else
        assert (CambridgeOrigin + s)[..8] == "https://";
        CambridgeOrigin + s
  }

  /** Absolutising an absolutised URL changes nothing. */
  lemma AbsAudioUrlIdempotent(src: Option<string>)
    ensures AbsAudioUrl(Some(AbsAudioUrl(src))) == AbsAudioUrl(src)
  {
  }

  // ---------------------------------------------------------------------------
  // Selectors used by the parsers
  // ---------------------------------------------------------------------------

  const HeadwordDhw := [Sel({"headword", "dhw"})]
  const HeadwordAny := [Sel({"headword", "dhw"}), Sel({"headword"})]
  const Bold := [TagSel("b", {})]
  const PosGram := [Sel({"posgram", "dpos-g", "hdib", "lmr-5"})]
  const PosAny := [Sel({"pos", "dpos"}), Sel({"pos"})]
  const UkPron := [Sel({"uk", "dpron-i"})]
  const UsPron := [Sel({"us", "dpron-i"})]
  const Phonetic := [Sel({"pron", "dpron"})]
  const AudioSource := [Selector(Some(Simple(Some("audio"), {}, None)),
                                 Simple(Some("source"), {}, Some(("type", "audio/mpeg"))))]
  const DefBlockDiv := [TagSel("div", {"def-block", "ddef_block"})]
  const DefBlock := [Sel({"def-block", "ddef_block"})]
  const DefText := [Sel({"def", "ddef_d", "db"})]
  const DefTextAny := [Sel({"def", "ddef_d", "db"}), Sel({"def", "ddef_d"})]
  const TransSe := [Sel({"trans", "dtrans", "dtrans-se"})]
  const Trans := [Sel({"trans", "dtrans"})]
  const TransAny := [Sel({"trans", "dtrans", "dtrans-se"}), Sel({"trans", "dtrans"})]
  const PhraseBlock := [Sel({"phrase-block", "dphrase-block"})]
  const PhraseTitle := [Selector(Some(Simple(None, {"phrase-head", "dphrase_h"}, None)),
                                 Simple(None, {"phrase-title"}, None))]
  const EntryBodyEl := [Sel({"entry-body__el"})]
  const IdiomBody := [Sel({"di-body"})]

  predicate InPhraseBlock(h: Hit) { HasAncestorClass(h, "phrase-block") }
  predicate NotInPhraseBlock(h: Hit) { !InPhraseBlock(h) }
  predicate NeverSkip(h: Hit) { false }
  predicate InHdb(h: Hit) { HasAncestorClass(h, "hdb") }
  predicate IsExample(h: Hit) { h.node.Elem? && "examp" in h.node.classes }

  // ---------------------------------------------------------------------------
  // Chinese translation choice
  // ---------------------------------------------------------------------------

  /** The extracted text of a located element. */
  function HitText(h: Hit): string {
    TextOrEmpty(Some(h))
  }

  /** A candidate that is not skipped and has text. */
  predicate Usable(h: Hit, skip: Hit -> bool, text: Hit -> string) {
    !skip(h) && text(h) != ""
  }

  /** The position of the first usable candidate, or the length when there is none. */
  function FirstUsable(cands: seq<Hit>, skip: Hit -> bool, text: Hit -> string): (r: nat)
    ensures r <= |cands|
    ensures r < |cands| ==> Usable(cands[r], skip, text)
    ensures forall j :: 0 <= j < r ==> !Usable(cands[j], skip, text)
    decreases |cands|
  {
    if cands == [] then 0
    else if Usable(cands[0], skip, text) then 0
    else
      var r := FirstUsable(cands[1..], skip, text);
      assert forall j :: 0 < j <= r ==> cands[j] == cands[1..][j - 1];
      1 + r
  }

  /** The first usable position is determined by its defining properties. */
  lemma FirstUsableUnique(cands: seq<Hit>, skip: Hit -> bool, text: Hit -> string, k: nat)
    requires k <= |cands|
    requires k < |cands| ==> Usable(cands[k], skip, text)
    requires forall j :: 0 <= j < k ==> !Usable(cands[j], skip, text)
    ensures FirstUsable(cands, skip, text) == k
  {
  }

  function FirstTextBy(cands: seq<Hit>, skip: Hit -> bool, text: Hit -> string): string {
    var i := FirstUsable(cands, skip, text);
    if i < |cands| then text(cands[i]) else ""
  }

  /** The text of the first candidate not skipped whose text is non-empty, or "". */
  function FirstText(cands: seq<Hit>, skip: Hit -> bool): string {
    FirstTextBy(cands, skip, HitText)
  }

  /** The candidate loop: skip the excluded candidates, take the first
      non-empty text. */
  method ChooseTranslation(cands: seq<Hit>, skip: Hit -> bool, text: Hit -> string) returns (chText: string)
    ensures chText == FirstTextBy(cands, skip, text)
  {
    chText := "";
    var k := 0;
    while k < |cands|
      invariant 0 <= k <= |cands|
      invariant forall j :: 0 <= j < k ==> !Usable(cands[j], skip, text)
      invariant chText == ""
    {
      var ch := cands[k];
      if skip(ch) {
        k := k + 1;
        continue;
      }
      chText := text(ch);
      if chText != "" {
        break;
      }
      k := k + 1;
    }
    FirstUsableUnique(cands, skip, text, k);
  }

  // ---------------------------------------------------------------------------
  // Definition blocks
  // ---------------------------------------------------------------------------

  function MapMeanings(hs: seq<Hit>, f: Hit -> Meaning): (r: seq<Meaning>)
    ensures |r| == |hs| && forall i :: 0 <= i < |hs| ==> r[i] == f(hs[i])
  {
    seq(|hs|, i requires 0 <= i < |hs| => f(hs[i]))
  }

  lemma MapMeaningsSnoc(hs: seq<Hit>, h: Hit, f: Hit -> Meaning)
    ensures MapMeanings(hs + [h], f) == MapMeanings(hs, f) + [f(h)]
  {
    assert MapMeanings(hs + [h], f)[|hs|] == f(h);
  }

  /** The definitions read from the blocks that lie outside every phrase
      block, in document order. */
  function DefinitionsOf(blocks: seq<Hit>, f: Hit -> Meaning): (r: seq<Meaning>)
    ensures |r| <= |blocks|
    decreases |blocks|
  {
    if blocks == [] then []
    else
      var last := blocks[|blocks| - 1];
      DefinitionsOf(blocks[..|blocks| - 1], f) + (if InPhraseBlock(last) then [] else [f(last)])
  }

  /** Definition blocks inside a phrase block are skipped: the definitions are
      exactly one per remaining block, in order. */
  lemma {:induction false} DefinitionsScoped(blocks: seq<Hit>, f: Hit -> Meaning)
    ensures DefinitionsOf(blocks, f) == MapMeanings(FilterHits(blocks, NotInPhraseBlock), f)
    decreases |blocks|
  {
    if blocks != [] {
      var init := blocks[..|blocks| - 1];
      var last := blocks[|blocks| - 1];
      DefinitionsScoped(init, f);
      if !InPhraseBlock(last) {
        MapMeaningsSnoc(FilterHits(init, NotInPhraseBlock), last, f);
      }
    }
  }

  /** The loop over definition blocks shared by both parsers. */
  method CollectDefinitions(defBlocks: seq<Hit>, f: Hit -> Meaning) returns (definitions: seq<Meaning>)
    ensures definitions == DefinitionsOf(defBlocks, f)
  {
    definitions := [];
    for k := 0 to |defBlocks|
      invariant definitions == DefinitionsOf(defBlocks[..k], f)
    {
      assert defBlocks[..k + 1][..k] == defBlocks[..k];
      var ddef := defBlocks[k];
      if InPhraseBlock(ddef) {
        continue;
      }
      definitions := definitions + [f(ddef)];
    }
    assert defBlocks[..|defBlocks|] == defBlocks;
  }

  // ---------------------------------------------------------------------------
  // Entry body
  // ---------------------------------------------------------------------------

  /** The Chinese text of an entry definition block: among the `.trans.dtrans.dtrans-se`
      candidates the first non-`hdb` one with text, or, when there are no such
      candidates at all, the first `.trans.dtrans`. */
  function EntryTranslation(ddef: Hit): string {
    var cands := Select(ddef, TransSe);
    if cands != [] then FirstText(cands, InHdb) else TextOrEmpty(SelectOne(ddef, Trans))
  }

  function EntryDefinition(ddef: Hit): Meaning {
    Meaning(TextOrEmpty(SelectOne(ddef, DefText)), EntryTranslation(ddef))
  }

  /** How one entry definition block is read. */
  method ParseEntryDefinition(ddef: Hit) returns (m: Meaning)
    ensures m == EntryDefinition(ddef)
  {
    var enDef := TextOrEmpty(SelectOne(ddef, DefText));
    var chCandidates := Select(ddef, TransSe);
    var chText := "";
    if chCandidates != [] {
      chText := ChooseTranslation(chCandidates, InHdb, HitText);
    } else {
      chText := TextOrEmpty(SelectOne(ddef, Trans));
    }
    m := Meaning(enDef, chText);
  }

  /** The English and Chinese text of a definition inside a phrase block; the
      Chinese is the first non-example `.trans.dtrans` with text. */
  function PhraseDefinition(pdb: Hit): Meaning {
    Meaning(TextOrEmpty(SelectOne(pdb, DefText)), FirstText(Select(pdb, Trans), IsExample))
  }

  /** How one definition block of a phrase block is read. */
  method ParsePhraseDefinition(pdb: Hit) returns (m: Meaning)
    ensures m == PhraseDefinition(pdb)
  {
    var enPhraseDef := TextOrEmpty(SelectOne(pdb, DefText));
    var chText := ChooseTranslation(Select(pdb, Trans), IsExample, HitText);
    m := Meaning(enPhraseDef, chText);
  }

  /** The title of a phrase block. */
  function PhraseTitleText(block: Hit): string {
    TextOrEmpty(SelectOne(block, PhraseTitle))
  }

  /** The definitions of one phrase block, one per definition block inside it. */
  function PhraseBlockDefinitions(block: Hit): seq<Meaning> {
    MapMeanings(Select(block, DefBlock), PhraseDefinition)
  }

  /** The non-empty titles, one per block at most. */
  function TitlesOf(blocks: seq<Hit>, title: Hit -> string): (r: seq<string>)
    ensures |r| <= |blocks|
    ensures forall i :: 0 <= i < |r| ==> r[i] != ""
    decreases |blocks|
  {
    if blocks == [] then []
    else
      var t := title(blocks[|blocks| - 1]);
      TitlesOf(blocks[..|blocks| - 1], title) + (if t != "" then [t] else [])
  }

  /** The definitions of all blocks, block after block. */
  function DefinitionsIn(blocks: seq<Hit>, defsOf: Hit -> seq<Meaning>): seq<Meaning>
    decreases |blocks|
  {
    if blocks == [] then []
    else DefinitionsIn(blocks[..|blocks| - 1], defsOf) + defsOf(blocks[|blocks| - 1])
  }

  function PhraseTitles(blocks: seq<Hit>): seq<string> {
    TitlesOf(blocks, PhraseTitleText)
  }

  function PhraseDefinitions(blocks: seq<Hit>): seq<Meaning> {
    DefinitionsIn(blocks, PhraseBlockDefinitions)
  }

  /** The loop over the definition blocks of one phrase block. */
  method MapDefinitions(pdbs: seq<Hit>, f: Hit -> Meaning) returns (defs: seq<Meaning>)
    ensures defs == MapMeanings(pdbs, f)
  {
    defs := [];
    for t := 0 to |pdbs|
      invariant defs == MapMeanings(pdbs[..t], f)
    {
      assert pdbs[..t + 1] == pdbs[..t] + [pdbs[t]];
      MapMeaningsSnoc(pdbs[..t], pdbs[t], f);
      defs := defs + [f(pdbs[t])];
    }
    assert pdbs[..|pdbs|] == pdbs;
  }

  /** The phrase loop of `parse_entry_body`: a title for each block whose title
      is non-empty, and every definition block of every phrase block. */
  method CollectPhrases(blocks: seq<Hit>, title: Hit -> string, defsOf: Hit -> seq<Meaning>)
    returns (phrases: seq<string>, phraseDefinitions: seq<Meaning>)
    ensures phrases == TitlesOf(blocks, title)
    ensures phraseDefinitions == DefinitionsIn(blocks, defsOf)
  {
    phrases := [];
    phraseDefinitions := [];
    for k := 0 to |blocks|
      invariant phrases == TitlesOf(blocks[..k], title)
      invariant phraseDefinitions == DefinitionsIn(blocks[..k], defsOf)
    {
      assert blocks[..k + 1][..k] == blocks[..k];
      var phraseTitle := title(blocks[k]);
      if phraseTitle != "" {
        phrases := phrases + [phraseTitle];
      }
      phraseDefinitions := phraseDefinitions + defsOf(blocks[k]);
    }
    assert blocks[..|blocks|] == blocks;
  }

  /** A UK or US pronunciation: the phonetic text and the absolutised audio source. */
  function PronunciationOf(entry: Hit, group: seq<Selector>): Pronunciation {
    match SelectOne(entry, group)
    case None => EmptyPronunciation
    case Some(p) =>
      var src := match SelectOne(p, AudioSource)
        case Some(s) => if s.node.Elem? && "src" in s.node.attrs then Some(s.node.attrs["src"]) else None
        case None => None;
      Pronunciation(TextOrEmpty(SelectOne(p, Phonetic)), AbsAudioUrl(src))
  }

  /** The part of speech `parse_entry_body` builds. */
  function ParsedEntry(entry: Hit): PartOfSpeech {
    var blocks := Select(entry, PhraseBlock);
    Entry(
      TextOrEmpty(SelectOne(entry, PosGram)),
      TextOrEmpty(SelectOne(entry, HeadwordDhw)),
      PronunciationOf(entry, UkPron),
      PronunciationOf(entry, UsPron),
      DefinitionsOf(Select(entry, DefBlockDiv), EntryDefinition),
      PhraseTitles(blocks),
      PhraseDefinitions(blocks))
  }

  /** `parse_entry_body`. */
  method ParseEntryBody(entry: Hit) returns (pos: PartOfSpeech)
    ensures pos == ParsedEntry(entry)
  {
    var wordPrototype := TextOrEmpty(SelectOne(entry, HeadwordDhw));
    var kind := TextOrEmpty(SelectOne(entry, PosGram));
    var uk := PronunciationOf(entry, UkPron);
    var us := PronunciationOf(entry, UsPron);
    var definitions := CollectDefinitions(Select(entry, DefBlockDiv), EntryDefinition);
    var phrases, phraseDefinitions := CollectPhrases(Select(entry, PhraseBlock), PhraseTitleText, PhraseBlockDefinitions);
    pos := Entry(kind, wordPrototype, uk, us, definitions, phrases, phraseDefinitions);
  }

  // ---------------------------------------------------------------------------
  // Idiom block
  // ---------------------------------------------------------------------------

  /** Among the candidates the first non-`hdb` one with text, and failing that
      the first one with text at all. */
  function IdiomTranslation(ddef: Hit): string {
    var cands := Select(ddef, TransAny);
    var preferred := FirstText(cands, InHdb);
    if preferred != "" then preferred else FirstText(cands, NeverSkip)
  }

  function IdiomDefinition(ddef: Hit): Meaning {
    Meaning(TextOrEmpty(SelectOne(ddef, DefTextAny)), IdiomTranslation(ddef))
  }

  /** How one idiom definition block is read. */
  method ParseIdiomDefinition(ddef: Hit) returns (m: Meaning)
    ensures m == IdiomDefinition(ddef)
  {
    var enDef := TextOrEmpty(SelectOne(ddef, DefTextAny));
    var chCandidates := Select(ddef, TransAny);
    var chText := "";
    if chCandidates != [] {
      chText := ChooseTranslation(chCandidates, InHdb, HitText);
      if chText == "" {
        chText := ChooseTranslation(chCandidates, NeverSkip, HitText);
      }
    }
    m := Meaning(enDef, chText);
  }

  /** The headword: the text of its `<b>` child when it has one. */
  function IdiomHeadword(entry: Hit): string {
    match SelectOne(entry, HeadwordAny)
    case None => ""
    case Some(h) =>
      var b := SelectOne(h, Bold);
      if b.Some? then TextOrEmpty(b) else TextOrEmpty(Some(h))
  }

  /** The part of speech `parse_idiom_block` builds. */
  function ParsedIdiom(entry: Hit): PartOfSpeech {
    Idiom(
      TextOrEmpty(SelectOne(entry, PosAny)),
      IdiomHeadword(entry),
      DefinitionsOf(Select(entry, DefBlockDiv), IdiomDefinition))
  }

  /** `parse_idiom_block`. */
  method ParseIdiomBlock(entry: Hit) returns (pos: PartOfSpeech)
    ensures pos == ParsedIdiom(entry)
  {
    var wordPrototype := IdiomHeadword(entry);
    var kind := TextOrEmpty(SelectOne(entry, PosAny));
    var definitions := CollectDefinitions(Select(entry, DefBlockDiv), IdiomDefinition);
    pos := Idiom(kind, wordPrototype, definitions);
  }

  // ---------------------------------------------------------------------------
  // Scoping properties
  // ---------------------------------------------------------------------------

  /** The definitions of an entry or idiom block are exactly those of its
      definition blocks that have no phrase-block ancestor, in document order. */
  lemma ParsedDefinitionsScoped(entry: Hit)
    ensures var blocks := FilterHits(Select(entry, DefBlockDiv), NotInPhraseBlock);
      ParsedEntry(entry).definitions == MapMeanings(blocks, EntryDefinition)
      && ParsedIdiom(entry).definitions == MapMeanings(blocks, IdiomDefinition)
      && (forall h :: h in blocks <==> h in Select(entry, DefBlockDiv) && !InPhraseBlock(h))
  {
    DefinitionsScoped(Select(entry, DefBlockDiv), EntryDefinition);
    DefinitionsScoped(Select(entry, DefBlockDiv), IdiomDefinition);
    FilterHitsMembers(Select(entry, DefBlockDiv), NotInPhraseBlock);
  }

  function DefinitionBlockCount(blocks: seq<Hit>): nat
    decreases |blocks|
  {
    if blocks == [] then 0
    else DefinitionBlockCount(blocks[..|blocks| - 1]) + |Select(blocks[|blocks| - 1], DefBlock)|
  }

  /** The phrase definitions count every definition block of every phrase block,
      while the phrase list has at most one title per phrase block. */
  lemma {:induction false} PhraseCounts(blocks: seq<Hit>)
    ensures |PhraseTitles(blocks)| <= |blocks|
    ensures |PhraseDefinitions(blocks)| == DefinitionBlockCount(blocks)
    decreases |blocks|
  {
    if blocks != [] {
      PhraseCounts(blocks[..|blocks| - 1]);
    }
  }

  /** Phrases and phrase definitions need not be index-aligned: a phrase block
      with an empty title and one definition block contributes no phrase but
      one phrase definition. */
  lemma PhrasesNotAligned(block: Hit)
    requires PhraseTitleText(block) == ""
    requires |Select(block, DefBlock)| == 1
    ensures PhraseTitles([block]) == []
    ensures |PhraseDefinitions([block])| == 1
  {
    assert [block][..0] == [];
    assert PhraseDefinitions([block]) == DefinitionsIn([], PhraseBlockDefinitions) + PhraseBlockDefinitions(block);
    assert |PhraseBlockDefinitions(block)| == 1;
  }

  // ---------------------------------------------------------------------------
  // Page results
  // ---------------------------------------------------------------------------

  /** The dictionary page result: its URL and its parts of speech. */
  datatype PageResult = PageResult(wordUrl: string, partOfSpeech: seq<PartOfSpeech>)

  /** The validity test of `get_word_info_from_url`. For an idiom block with an
      empty headword and no definitions, `pos_dict["phrases"]` is looked up on a
      dictionary that lacks it and the lookup raises. */
  function Meaningful(p: PartOfSpeech): (r: Result<bool>)
    ensures r.Failure? <==> p.Idiom? && p.wordPrototype == "" && p.definitions == []
    ensures r.Failure? ==> r.error == KeyError("phrases")
    ensures r == Success(true) <==> p.wordPrototype != "" || p.definitions != [] || (p.Entry? && p.phrases != [])
  {
    if p.wordPrototype != "" || p.definitions != [] then Success(true)
    else match p
      case Entry(_, _, _, _, _, phrases, _) => Success(phrases != [])
      case Idiom(_, _, _) => Failure(KeyError("phrases"))
  }

  /** The content test of `get_word_info_by_word`, which uses `.get` and so never raises. */
  predicate HasContent(p: PartOfSpeech) {
    p.wordPrototype != "" || p.definitions != [] || (p.Entry? && p.phrases != [])
  }

  /** The result for a page that could not be fetched. */
  function FailedFetch(url: string): PageResult {
    PageResult(url, [DefaultPartOfSpeech])
  }

  /** Parsing the blocks one by one and keeping the meaningful parts of speech
      after `acc`; the first failing test aborts the whole page. */
  function KeepParts(acc: seq<PartOfSpeech>, blocks: seq<Hit>, parse: Hit -> PartOfSpeech): Result<seq<PartOfSpeech>>
    decreases |blocks|
  {
    if blocks == [] then Success(acc)
    else match Meaningful(parse(blocks[0]))
      case Failure(e) => Failure(e)
      case Success(keep) => KeepParts(if keep then acc + [parse(blocks[0])] else acc, blocks[1..], parse)
  }

  /** What the filter keeps: the parts already collected, then exactly the
      parsed blocks with content, in order; it fails, always on the missing
      "phrases" key, exactly when some block fails the test. */
  lemma {:induction false} KeepPartsSpec(acc: seq<PartOfSpeech>, blocks: seq<Hit>, parse: Hit -> PartOfSpeech)
    ensures var r := KeepParts(acc, blocks, parse);
      (r.Success? ==>
        acc <= r.value
        && (forall p :: p in r.value[|acc|..] ==> HasContent(p) && exists i :: 0 <= i < |blocks| && p == parse(blocks[i]))
        && (forall i :: 0 <= i < |blocks| && HasContent(parse(blocks[i])) ==> parse(blocks[i]) in r.value))
      && (r.Failure? <==> exists i :: 0 <= i < |blocks| && Meaningful(parse(blocks[i])).Failure?)
      && (r.Failure? ==> r.error == KeyError("phrases"))
    decreases |blocks|
  {
    if blocks != [] {
      var p0 := parse(blocks[0]);
      var m := Meaningful(p0);
      var rest := blocks[1..];
      assert forall i :: 0 < i < |blocks| ==> blocks[i] == rest[i - 1];
      if m.Success? {
        var acc' := if m.value then acc + [p0] else acc;
        KeepPartsSpec(acc', rest, parse);
        var r := KeepParts(acc', rest, parse);
        assert KeepParts(acc, blocks, parse) == r;
        if r.Success? {
          if m.value {
            assert r.value[|acc|..] == [p0] + r.value[|acc'|..];
            assert r.value[|acc|] == p0;
          }
          forall p | p in r.value[|acc|..]
            ensures HasContent(p) && exists i :: 0 <= i < |blocks| && p == parse(blocks[i])
          {
            if p in r.value[|acc'|..] {
              var i :| 0 <= i < |rest| && p == parse(rest[i]);
              assert p == parse(blocks[i + 1]);
            } else {
              assert p == p0;
            }
          }
          forall i | 0 <= i < |blocks| && HasContent(parse(blocks[i]))
            ensures parse(blocks[i]) in r.value
          {
            if i == 0 {
              assert r.value[|acc|] == p0;
            } else {
              assert parse(blocks[i]) == parse(rest[i - 1]);
            }
          }
        } else {
          var i :| 0 <= i < |rest| && Meaningful(parse(rest[i])).Failure?;
          assert parse(blocks[i + 1]) == parse(rest[i]);
        }
        if exists i :: 0 <= i < |blocks| && Meaningful(parse(blocks[i])).Failure? {
          var i :| 0 <= i < |blocks| && Meaningful(parse(blocks[i])).Failure?;
          assert i != 0;
          assert parse(rest[i - 1]) == parse(blocks[i]);
        }
      }
    }
  }

  /** The parts of speech `get_word_info_from_url` collects from a fetched page:
      the entry bodies, then the idiom blocks. */
  function PageParts(root: Node): Result<seq<PartOfSpeech>> {
    var doc := Hit(root, []);
    KeepBoth(Select(doc, EntryBodyEl), ParsedEntry, Select(doc, IdiomBody), ParsedIdiom)
  }

  /** The first list of blocks filtered, then the second one after it. */
  function KeepBoth(first: seq<Hit>, parseFirst: Hit -> PartOfSpeech,
                    second: seq<Hit>, parseSecond: Hit -> PartOfSpeech): Result<seq<PartOfSpeech>> {
    match KeepParts([], first, parseFirst)
    case Failure(e) => Failure(e)
    case Success(kept) => KeepParts(kept, second, parseSecond)
  }

  /** Both filters together keep exactly the parsed blocks with content. */
  lemma KeepBothContent(first: seq<Hit>, parseFirst: Hit -> PartOfSpeech,
                        second: seq<Hit>, parseSecond: Hit -> PartOfSpeech)
    requires KeepBoth(first, parseFirst, second, parseSecond).Success?
    ensures var all := KeepBoth(first, parseFirst, second, parseSecond).value;
      (forall p :: p in all ==>
         (HasContent(p)
          && ((exists i :: 0 <= i < |first| && p == parseFirst(first[i]))
              || (exists i :: 0 <= i < |second| && p == parseSecond(second[i])))))
      && (forall i :: 0 <= i < |first| && HasContent(parseFirst(first[i])) ==> parseFirst(first[i]) in all)
      && (forall i :: 0 <= i < |second| && HasContent(parseSecond(second[i])) ==> parseSecond(second[i]) in all)
  {
    KeepPartsSpec([], first, parseFirst);
    var kept := KeepParts([], first, parseFirst).value;
    KeepPartsSpec(kept, second, parseSecond);
    var all := KeepParts(kept, second, parseSecond).value;
    assert kept[0..] == kept;
    forall p | p in all
      ensures HasContent(p)
        && ((exists i :: 0 <= i < |first| && p == parseFirst(first[i]))
            || (exists i :: 0 <= i < |second| && p == parseSecond(second[i])))
    {
      if p !in all[|kept|..] {
        var j :| 0 <= j < |all| && all[j] == p;
        assert j < |kept| && kept[j] == p;
        assert p in kept;
      }
    }
  }

  /** The result of `get_word_info_from_url(url)` for the fetched page, `None`
      when the fetch failed or returned nothing. */
  function PageResultOf(url: string, page: Option<Node>): Result<PageResult> {
    match page
    case None => Success(FailedFetch(url))
    case Some(root) =>
      match PageParts(root)
      case Failure(e) => Failure(e)
      case Success(parts) => Success(PageResult(url, parts))
  }

  /** `get_word_info_from_url` on the fetched page: its two collection loops. */
  method GetWordInfoFromUrl(url: string, page: Option<Node>) returns (r: Result<PageResult>)
    ensures r == PageResultOf(url, page)
  {
    if page.None? {
      return Success(FailedFetch(url));
    }
    var doc := Hit(page.value, []);
    var entries := Select(doc, EntryBodyEl);
    var parts := CollectParts([], entries, ParsedEntry);
    if parts.Failure? {
      return Failure(parts.error);
    }
    var idioms := Select(doc, IdiomBody);
    parts := CollectParts(parts.value, idioms, ParsedIdiom);
    if parts.Failure? {
      return Failure(parts.error);
    }
    r := Success(PageResult(url, parts.value));
  }

  /** One collection loop: each block parsed, and appended when the content test
      (`pos_dict["wordPrototype"] or pos_dict["definitions"] or
      pos_dict["phrases"]`) holds; the lookup of a missing key raises. */
  method CollectParts(acc: seq<PartOfSpeech>, blocks: seq<Hit>, parse: Hit -> PartOfSpeech)
    returns (r: Result<seq<PartOfSpeech>>)
    ensures r == KeepParts(acc, blocks, parse)
  {
    var parts := acc;
    for k := 0 to |blocks|
      invariant KeepParts(acc, blocks, parse) == KeepParts(parts, blocks[k..], parse)
    {
      var p := parse(blocks[k]);
      assert blocks[k..][0] == blocks[k] && blocks[k..][1..] == blocks[k + 1..];
      var keep := Meaningful(p);
      if keep.Failure? {
        return Failure(keep.error);
      }
      if keep.value {
        parts := parts + [p];
      }
    }
    assert blocks[|blocks|..] == [];
    r := Success(parts);
  }

  /** A page with an idiom block that has neither headword nor definitions
      fails on the missing "phrases" key. */
  lemma EmptyIdiomFails(root: Node, i: nat)
    requires var idioms := Select(Hit(root, []), IdiomBody);
      i < |idioms| && ParsedIdiom(idioms[i]).wordPrototype == "" && ParsedIdiom(idioms[i]).definitions == []
    ensures PageParts(root) == Failure(KeyError("phrases"))
  {
    var doc := Hit(root, []);
    KeepPartsSpec([], Select(doc, EntryBodyEl), ParsedEntry);
    match KeepParts([], Select(doc, EntryBodyEl), ParsedEntry)
    case Failure(e) =>
    case Success(kept) =>
      KeepPartsSpec(kept, Select(doc, IdiomBody), ParsedIdiom);
  }

  /** A page that parses keeps exactly its parts with content: every kept part
      has content and comes from an entry body or an idiom block, and every
      entry body or idiom block with content is kept. */
  lemma PagePartsContent(root: Node)
    requires PageParts(root).Success?
    ensures var doc := Hit(root, []);
      var entries := Select(doc, EntryBodyEl);
      var idioms := Select(doc, IdiomBody);
      (forall p :: p in PageParts(root).value ==>
         (HasContent(p)
          && ((exists i :: 0 <= i < |entries| && p == ParsedEntry(entries[i]))
              || (exists i :: 0 <= i < |idioms| && p == ParsedIdiom(idioms[i])))))
      && (forall i :: 0 <= i < |entries| && HasContent(ParsedEntry(entries[i])) ==>
            ParsedEntry(entries[i]) in PageParts(root).value)
      && (forall i :: 0 <= i < |idioms| && HasContent(ParsedIdiom(idioms[i])) ==>
            ParsedIdiom(idioms[i]) in PageParts(root).value)
  {
    var doc := Hit(root, []);
    KeepBothContent(Select(doc, EntryBodyEl), ParsedEntry, Select(doc, IdiomBody), ParsedIdiom);
  }

  const EnglishChineseBase := "https://dictionary.cambridge.org/dictionary/english-chinese-simplified/"
  const EnglishBase := "https://dictionary.cambridge.org/dictionary/english/"

  /** The placeholder returned when no candidate page has content. */
  const Placeholder := PageResult("", [DefaultPartOfSpeech])

  predicate PageHasContent(res: PageResult) {
    exists i :: 0 <= i < |res.partOfSpeech| && HasContent(res.partOfSpeech[i])
  }

  /** The first candidate URL whose page has content, otherwise the placeholder;
      a page that raises ends the search. `fetch` stands for the network. */
  function LookupByWord(word: string, fetch: string -> Option<Node>): Result<PageResult> {
    var first := PageResultOf(EnglishChineseBase + word, fetch(EnglishChineseBase + word));
    var second := PageResultOf(EnglishBase + word, fetch(EnglishBase + word));
    if !PassedOver(first) then first
    else if !PassedOver(second) then second
    else Success(Placeholder)
  }

  /** A page result the lookup moves past: fetched without error, no content. */
  predicate PassedOver(res: Result<PageResult>) {
    res.Success? && !PageHasContent(res.value)
  }

  /** A lookup by word gives an error, the placeholder, or a page with content
      taken from one of the two dictionary URLs for that word. */
  lemma LookupByWordResult(word: string, fetch: string -> Option<Node>)
    ensures var r := LookupByWord(word, fetch);
      r.Failure? || r == Success(Placeholder)
      || (PageHasContent(r.value) && r.value.wordUrl in {EnglishChineseBase + word, EnglishBase + word})
  {
  }

  /** `get_word_info_by_word`. */
  method GetWordInfoByWord(word: string, fetch: string -> Option<Node>) returns (r: Result<PageResult>)
    ensures r == LookupByWord(word, fetch)
  {
    var urlList := [EnglishChineseBase + word, EnglishBase + word];
    for k := 0 to 2
      invariant k >= 1 ==> PassedOver(PageResultOf(urlList[0], fetch(urlList[0])))
      invariant k >= 2 ==> PassedOver(PageResultOf(urlList[1], fetch(urlList[1])))
    {
      var url := urlList[k];
      var res := GetWordInfoFromUrl(url, fetch(url));
      if res.Failure? {
        return res;
      }
      if |res.value.partOfSpeech| > 0 {
        var nonEmpty := exists i :: 0 <= i < |res.value.partOfSpeech| && HasContent(res.value.partOfSpeech[i]);
        if nonEmpty {
          return res;
        }
      }
    }
    return Success(Placeholder);
  }

  /** The placeholder of a failed fetch never counts as content, so the lookup
      moves on to the next URL. */
  lemma FailedFetchHasNoContent(url: string)
    ensures !PageHasContent(FailedFetch(url))
  {
  }

  /** `get_word_info`: a string that starts with http:// or https:// is a page
      URL, anything else is a word. */
  method GetWordInfo(wordOrUrl: string, fetch: string -> Option<Node>) returns (r: Result<PageResult>)
    ensures IsAbsoluteUrl(wordOrUrl) ==> r == PageResultOf(wordOrUrl, fetch(wordOrUrl))
    ensures !IsAbsoluteUrl(wordOrUrl) ==> r == LookupByWord(wordOrUrl, fetch)
  {
    if IsAbsoluteUrl(wordOrUrl) {
      r := GetWordInfoFromUrl(wordOrUrl, fetch(wordOrUrl));
    } else {
      r := GetWordInfoByWord(wordOrUrl, fetch);
    }
  }

  // ---------------------------------------------------------------------------
  // English pronunciations onto a Chinese-page result
  // ---------------------------------------------------------------------------

  /** The first English part for each non-empty prototype. */
  function FirstByPrototype(en: seq<PartOfSpeech>): (m: map<string, PartOfSpeech>)
    ensures forall p :: p in m ==> p != "" && m[p] in en && m[p].wordPrototype == p
    ensures forall i :: 0 <= i < |en| && en[i].wordPrototype != "" ==> en[i].wordPrototype in m
    decreases |en|
  {
    if en == [] then map[]
    else
      var init := en[..|en| - 1];
      var m := FirstByPrototype(init);
      var p := en[|en| - 1];
      assert forall q :: q in init ==> q in en;
      if p.wordPrototype != "" && p.wordPrototype !in m then m[p.wordPrototype := p] else m
  }

  /** For a repeated prototype the index keeps the earliest English part. */
  lemma {:induction false} FirstByPrototypeFirst(en: seq<PartOfSpeech>, i: nat)
    requires i < |en| && en[i].wordPrototype != ""
    requires forall j :: 0 <= j < i ==> en[j].wordPrototype != en[i].wordPrototype
    ensures en[i].wordPrototype in FirstByPrototype(en)
    ensures FirstByPrototype(en)[en[i].wordPrototype] == en[i]
    decreases |en|
  {
    if i < |en| - 1 {
      FirstByPrototypeFirst(en[..|en| - 1], i);
    }
  }

  /** The English part matched with the `i`-th Chinese part: the first English
      part with the same non-empty prototype, otherwise the one at the same index. */
  function MatchedEnglish(chp: PartOfSpeech, i: nat, en: seq<PartOfSpeech>, byProto: map<string, PartOfSpeech>): Option<PartOfSpeech> {
    if chp.wordPrototype != "" && chp.wordPrototype in byProto then Some(byProto[chp.wordPrototype])
    else if i < |en| then Some(en[i])
    else None
  }

  /** Overwriting one pronunciation field by field, only with non-empty values. */
  function OverlayPronunciation(target: Pronunciation, source: Pronunciation): (r: Pronunciation)
    ensures r.phonetic == (if source.phonetic != "" then source.phonetic else target.phonetic)
    ensures r.pronUrl == (if source.pronUrl != "" then source.pronUrl else target.pronUrl)
  {
    Pronunciation(
      if source.phonetic != "" then source.phonetic else target.phonetic,
      if source.pronUrl != "" then source.pronUrl else target.pronUrl)
  }

  predicate HasPronunciationValue(p: Pronunciation) {
    p.phonetic != "" || p.pronUrl != ""
  }

  /** The overlay of one matched English part onto a Chinese part. An idiom part
      has no pronunciation fields: reading them from an English idiom yields
      nothing, and writing a non-empty value into a Chinese idiom raises. */
  function OverlayPart(chp: PartOfSpeech, matched: PartOfSpeech): Result<PartOfSpeech> {
    if matched.Idiom? then Success(chp)
    else if !HasPronunciationValue(matched.uk) && !HasPronunciationValue(matched.us) then Success(chp)
    else if chp.Idiom? then
      Failure(KeyError(if HasPronunciationValue(matched.uk) then "pronunciationUK" else "pronunciationUS"))
    else Success(chp.(uk := OverlayPronunciation(chp.uk, matched.uk), us := OverlayPronunciation(chp.us, matched.us)))
  }

  /** The `j`-th Chinese part overlaid with its English match, if it has one. */
  function OverlaidPart(chParts: seq<PartOfSpeech>, j: nat, en: seq<PartOfSpeech>,
                        byProto: map<string, PartOfSpeech>): Result<PartOfSpeech>
    requires j < |chParts|
  {
    match MatchedEnglish(chParts[j], j, en, byProto)
    case None => Success(chParts[j])
    case Some(m) => OverlayPart(chParts[j], m)
  }

  /** The index loop of `_merge_pronunciations_from_english`. */
  method IndexByPrototype(enParts: seq<PartOfSpeech>) returns (enByProto: map<string, PartOfSpeech>)
    ensures enByProto == FirstByPrototype(enParts)
  {
    enByProto := map[];
    for idx := 0 to |enParts|
      invariant enByProto == FirstByPrototype(enParts[..idx])
    {
      assert enParts[..idx + 1][..idx] == enParts[..idx];
      var p := enParts[idx];
      var proto := p.wordPrototype;
      if proto != "" {
        if proto !in enByProto {
          enByProto := enByProto[proto := p];
        }
      }
    }
    assert enParts[..|enParts|] == enParts;
  }

  /** `_merge_pronunciations_from_english(ch_res, en_res)`. */
  method MergePronunciationsFromEnglish(ch: PageResult, en: PageResult) returns (r: Result<PageResult>)
    ensures ch.partOfSpeech == [] || en.partOfSpeech == [] ==> r == Success(ch)
    ensures r.Success? ==> r.value.wordUrl == ch.wordUrl && |r.value.partOfSpeech| == |ch.partOfSpeech|
    ensures r.Success? && ch.partOfSpeech != [] && en.partOfSpeech != [] ==>
      forall i :: 0 <= i < |ch.partOfSpeech| ==>
        OverlaidPart(ch.partOfSpeech, i, en.partOfSpeech, FirstByPrototype(en.partOfSpeech))
          == Success(r.value.partOfSpeech[i])
    ensures r.Failure? ==>
      exists k :: 0 <= k < |ch.partOfSpeech| &&
        OverlaidPart(ch.partOfSpeech, k, en.partOfSpeech, FirstByPrototype(en.partOfSpeech))
          == Failure(r.error)
        && forall j :: 0 <= j < k ==>
             OverlaidPart(ch.partOfSpeech, j, en.partOfSpeech, FirstByPrototype(en.partOfSpeech)).Success?
  {
    var chParts := ch.partOfSpeech;
    var enParts := en.partOfSpeech;
    if chParts == [] || enParts == [] {
      return Success(ch);
    }
    var enByProto := IndexByPrototype(enParts);
    var parts := chParts;
    for i := 0 to |chParts|
      invariant |parts| == |chParts|
      invariant forall j :: i <= j < |chParts| ==> parts[j] == chParts[j]
      invariant forall j :: 0 <= j < i ==> OverlaidPart(chParts, j, enParts, enByProto) == Success(parts[j])
    {
      var chp := parts[i];
      var matched := MatchedEnglish(chp, i, enParts, enByProto);
      if matched.Some? {
        var next := OverlayPart(chp, matched.value);
        if next.Failure? {
          assert OverlaidPart(chParts, i, enParts, enByProto) == Failure(next.error);
          return Failure(next.error);
        }
        parts := parts[i := next.value];
      }
      assert OverlaidPart(chParts, i, enParts, enByProto) == Success(parts[i]);
    }
    r := Success(ch.(partOfSpeech := parts));
  }

  /** The overlay never writes an empty value, never touches anything but the
      four pronunciation fields, and applying it twice is applying it once. */
  lemma OverlayPartProperties(chp: PartOfSpeech, m: PartOfSpeech)
    requires OverlayPart(chp, m).Success?
    ensures var r := OverlayPart(chp, m).value;
      r.kind == chp.kind && r.wordPrototype == chp.wordPrototype && r.definitions == chp.definitions
      && (r.Entry? <==> chp.Entry?)
      && (chp.Entry? ==> r.phrases == chp.phrases && r.phraseDefinitions == chp.phraseDefinitions)
      && (chp.Entry? && m.Entry? ==>
            (r.uk.phonetic == chp.uk.phonetic || r.uk.phonetic == m.uk.phonetic != "")
            && (r.uk.pronUrl == chp.uk.pronUrl || r.uk.pronUrl == m.uk.pronUrl != "")
            && (r.us.phonetic == chp.us.phonetic || r.us.phonetic == m.us.phonetic != "")
            && (r.us.pronUrl == chp.us.pronUrl || r.us.pronUrl == m.us.pronUrl != ""))
      && OverlayPart(r, m) == Success(r)
  {
  }
}
