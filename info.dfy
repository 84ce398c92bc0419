/** The corpus merge of code/info/info.py: every record is keyed by its normalised
    prototype (headword), a new record whose key is already known is merged into
    the indexed one (sentences deduplicated by text, empty part-of-speech slots
    filled), and every other new record is appended. */
module Info {
  import opened Wrappers
  import opened Text
  import opened Records

  // ---------------------------------------------------------------------------
  // Prototypes and keys
  // ---------------------------------------------------------------------------

  /** `_normalize_proto`: strip surrounding whitespace, then lower-case. */
  function NormalizeProto(p: string): (r: string)
    ensures |r| <= |p|
    ensures r == "" <==> AllSpace(p)
    ensures r == "" || (!IsSpace(r[0]) && !IsSpace(r[|r| - 1]))
    ensures forall i :: 0 <= i < |r| ==> !IsAsciiUpper(r[i])
  {
    StripEmpty(p);
    Lower(Strip(p))
  }

  lemma StripStripped(t: string)
    requires t == "" || (!IsSpace(t[0]) && !IsSpace(t[|t| - 1]))
    ensures Strip(t) == t
  {
    if t != "" {
      assert LeadingSpaces(t) == 0;
    }
  }

  /** Normalising twice is normalising once. */
  lemma NormalizeProtoIdempotent(p: string)
    ensures NormalizeProto(NormalizeProto(p)) == NormalizeProto(p)
  {
    var t := NormalizeProto(p);
    StripStripped(t);
    assert Lower(t) == t;
  }

  /** The sentence carries a truthy (present and non-empty) highlighted text. */
  predicate HasText(s: Sentence) {
    s.text.Some? && s.text.value != ""
  }

  /** The index of the first sentence with a truthy text. */
  function FirstTextIndex(ss: seq<Sentence>): (r: Option<nat>)
    ensures r.Some? ==> r.value < |ss| && HasText(ss[r.value])
    ensures r.Some? ==> forall j :: 0 <= j < r.value ==> !HasText(ss[j])
    ensures r.None? ==> forall j :: 0 <= j < |ss| ==> !HasText(ss[j])
  {
    if ss == [] then None
    else if HasText(ss[0]) then Some(0)
    else match FirstTextIndex(ss[1..])
      case Some(i) => Some(i + 1)
      case None => None
  }

  /** `get_prototype`: the normalised first wordPrototype when it is non-empty,
      otherwise the normalised text of the first sentence that has one. */
  function GetPrototype(item: WordInfo): Option<string> {
    if |item.partOfSpeech| > 0 && item.partOfSpeech[0].wordPrototype != "" then
      Some(NormalizeProto(item.partOfSpeech[0].wordPrototype))
    else match FirstTextIndex(item.sentences)
      case Some(j) => Some(NormalizeProto(item.sentences[j].text.value))
      case None => None
  }

  /** The prototype comes from the first part of speech when its wordPrototype is
      non-empty; otherwise from the first sentence with a truthy text, and there
      is none exactly when no sentence has one. */
  lemma GetPrototypeSpec(item: WordInfo)
    ensures |item.partOfSpeech| > 0 && item.partOfSpeech[0].wordPrototype != "" ==>
      GetPrototype(item) == Some(NormalizeProto(item.partOfSpeech[0].wordPrototype))
    ensures !(|item.partOfSpeech| > 0 && item.partOfSpeech[0].wordPrototype != "") ==>
      (GetPrototype(item).None? <==> forall j :: 0 <= j < |item.sentences| ==> !HasText(item.sentences[j]))
    ensures !(|item.partOfSpeech| > 0 && item.partOfSpeech[0].wordPrototype != "") && GetPrototype(item).Some? ==>
      exists j :: 0 <= j < |item.sentences| && HasText(item.sentences[j])
        && (forall k :: 0 <= k < j ==> !HasText(item.sentences[k]))
        && GetPrototype(item).value == NormalizeProto(item.sentences[j].text.value)
  {
  }

  /** The key a record is indexed under: its prototype when that is truthy.
      A record without one is never merged into and never indexed. */
  function Key(item: WordInfo): Option<string> {
    match GetPrototype(item)
    case Some(p) => if p != "" then Some(p) else None
    case None => None
  }

  // ---------------------------------------------------------------------------
  // Sentence merge
  // ---------------------------------------------------------------------------

  /** The truthy texts already present in the sentence list. */
  function InitialTexts(ss: seq<Sentence>): set<Option<string>> {
    set i | 0 <= i < |ss| && HasText(ss[i]) :: ss[i].text
  }

  /** The merge state of the sentence loop: the sentence list and the texts seen. */
  datatype SentenceMerge = SentenceMerge(kept: seq<Sentence>, seen: set<Option<string>>)

  function SentenceFold(existing: seq<Sentence>, incoming: seq<Sentence>): SentenceMerge
    decreases |incoming|
  {
    if incoming == [] then SentenceMerge(existing, InitialTexts(existing))
    else
      var st := SentenceFold(existing, incoming[..|incoming| - 1]);
      var s := incoming[|incoming| - 1];
      if s.text in st.seen then st else SentenceMerge(st.kept + [s], st.seen + {s.text})
  }

  /** The sentences of a record after merging `incoming` into `existing`. */
  function SentenceUnion(existing: seq<Sentence>, incoming: seq<Sentence>): seq<Sentence> {
    SentenceFold(existing, incoming).kept
  }

  /** The sentence loop of `merge_word_lists`. */
  method MergeSentences(existing: seq<Sentence>, incoming: seq<Sentence>) returns (kept: seq<Sentence>)
    ensures kept == SentenceUnion(existing, incoming)
  {
    kept := existing;
    var seen := set i | 0 <= i < |existing| && HasText(existing[i]) :: existing[i].text;
    for k := 0 to |incoming|
      invariant SentenceMerge(kept, seen) == SentenceFold(existing, incoming[..k])
    {
      assert incoming[..k + 1][..k] == incoming[..k];
      var s := incoming[k];
      if s.text !in seen {
        kept := kept + [s];
        seen := seen + {s.text};
      }
    }
    assert incoming[..|incoming|] == incoming;
  }

  /** The set of texts occurring in a sentence list, truthy or not. */
  function TextsOf(ss: seq<Sentence>): set<Option<string>> {
    set i | 0 <= i < |ss| :: ss[i].text
  }

  /** The loop keeps the existing sentences as a prefix, appends only incoming
      sentences, and its seen set is the initial truthy texts plus the appended ones. */
  lemma SentenceFoldShape(existing: seq<Sentence>, incoming: seq<Sentence>)
    ensures var st := SentenceFold(existing, incoming);
      existing <= st.kept
      && st.seen == InitialTexts(existing) + TextsOf(st.kept[|existing|..])
      && (forall i :: |existing| <= i < |st.kept| ==> st.kept[i] in incoming)
      && (forall s :: s in incoming ==> s.text in st.seen)
  {
    SentenceFoldKept(existing, incoming);
    SentenceFoldSeen(existing, incoming);
  }

  lemma {:induction false} SentenceFoldKept(existing: seq<Sentence>, incoming: seq<Sentence>)
    ensures var st := SentenceFold(existing, incoming);
      existing <= st.kept
      && st.seen == InitialTexts(existing) + TextsOf(st.kept[|existing|..])
      && (forall i :: |existing| <= i < |st.kept| ==> st.kept[i] in incoming)
    decreases |incoming|
  {
    if incoming != [] {
      var init := incoming[..|incoming| - 1];
      SentenceFoldKept(existing, init);
      var st := SentenceFold(existing, init);
      var s := incoming[|incoming| - 1];
      if s.text !in st.seen {
        var a := st.kept[|existing|..];
        assert (st.kept + [s])[|existing|..] == a + [s];
        TextsOfSnoc(a, s);
      }
      forall i | |existing| <= i < |st.kept| ensures st.kept[i] in incoming {
        var k :| 0 <= k < |init| && init[k] == st.kept[i];
        assert incoming[k] == init[k];
      }
    }
  }

  lemma TextsOfSnoc(a: seq<Sentence>, s: Sentence)
    ensures TextsOf(a + [s]) == TextsOf(a) + {s.text}
  {
    assert forall i :: 0 <= i < |a| ==> (a + [s])[i] == a[i];
    assert (a + [s])[|a|] == s;
  }

  lemma {:induction false} SentenceFoldSeen(existing: seq<Sentence>, incoming: seq<Sentence>)
    ensures forall s :: s in incoming ==> s.text in SentenceFold(existing, incoming).seen
    decreases |incoming|
  {
    if incoming != [] {
      var init := incoming[..|incoming| - 1];
      SentenceFoldSeen(existing, init);
      var s := incoming[|incoming| - 1];
      forall t | t in incoming ensures t.text in SentenceFold(existing, incoming).seen {
        if t != s {
          var k :| 0 <= k < |incoming| && incoming[k] == t;
          assert t == init[k];
        }
      }
    }
  }

  /** No sentence at or after position `from` repeats the text of another
      sentence that was appended or that is truthy. */
  predicate AppendedDistinct(kept: seq<Sentence>, from: nat) {
    forall i, j :: from <= i < |kept| && 0 <= j < |kept| && i != j ==>
      !(kept[i].text == kept[j].text && (j >= from || HasText(kept[j])))
  }

  /** No appended sentence repeats a text already present or already appended. */
  lemma {:induction false} SentenceUnionDistinct(existing: seq<Sentence>, incoming: seq<Sentence>)
    ensures AppendedDistinct(SentenceUnion(existing, incoming), |existing|)
    decreases |incoming|
  {
    SentenceFoldShape(existing, incoming);
    if incoming != [] {
      var init := incoming[..|incoming| - 1];
      SentenceUnionDistinct(existing, init);
      SentenceFoldShape(existing, init);
      var st := SentenceFold(existing, init);
      var s := incoming[|incoming| - 1];
      if s.text !in st.seen {
        var kept := st.kept + [s];
        var n := |st.kept|;
        assert forall j :: 0 <= j < n ==> kept[j] == st.kept[j];
        assert kept[n] == s;
        forall j | 0 <= j < n && (j >= |existing| || HasText(kept[j]))
          ensures kept[j].text != s.text
        {
          if j >= |existing| {
            assert st.kept[j].text == st.kept[|existing|..][j - |existing|].text;
            assert st.kept[j].text in TextsOf(st.kept[|existing|..]);
          } else {
            assert st.kept[j] == existing[j];
            assert st.kept[j].text in InitialTexts(existing);
          }
        }
        assert AppendedDistinct(kept, |existing|);
      }
    }
  }

  /** Merging the same batch twice adds nothing the second time, provided every
      incoming sentence has a truthy text (an untruthy text never enters the
      initial text set, so it would be appended again). */
  lemma SentenceUnionIdempotent(existing: seq<Sentence>, incoming: seq<Sentence>)
    requires forall s :: s in incoming ==> HasText(s)
    ensures SentenceUnion(SentenceUnion(existing, incoming), incoming) == SentenceUnion(existing, incoming)
  {
    var kept := SentenceUnion(existing, incoming);
    SentenceFoldShape(existing, incoming);
    var st := SentenceFold(existing, incoming);
    assert forall s :: s in incoming ==> s.text in InitialTexts(kept) by {
      forall s | s in incoming ensures s.text in InitialTexts(kept) {
        if s.text in InitialTexts(existing) {
          var i :| 0 <= i < |existing| && HasText(existing[i]) && existing[i].text == s.text;
          assert kept[i] == existing[i];
        } else {
          assert s.text in TextsOf(kept[|existing|..]);
          var i :| 0 <= i < |kept[|existing|..]| && kept[|existing|..][i].text == s.text;
          assert kept[|existing| + i] in incoming;
          assert HasText(kept[|existing| + i]);
        }
      }
    }
    SentenceFoldSkips(kept, incoming);
  }
  const Textless := Sentence(None, "note", "book")

  /** Without the text condition re-adding a batch is not a no-op: a sentence
      whose text is missing is appended again by the second merge. */
  lemma SentenceUnionTextlessTwice()
    ensures var once := SentenceUnion([], [Textless]);
      once == [Textless] && SentenceUnion(once, [Textless]) == [Textless, Textless]
  {
    assert [Textless][..0] == [];
    assert InitialTexts([]) == {};
    assert SentenceFold([], []) == SentenceMerge([], {});
    assert SentenceFold([], [Textless]).kept == [Textless];
    assert !HasText([Textless][0]);
    assert InitialTexts([Textless]) == {};
    assert SentenceFold([Textless], []) == SentenceMerge([Textless], {});
    assert SentenceFold([Textless], [Textless]).kept == [Textless, Textless];
  }

  lemma {:induction false} SentenceFoldSkips(existing: seq<Sentence>, incoming: seq<Sentence>)
    requires forall s :: s in incoming ==> s.text in InitialTexts(existing)
    ensures SentenceFold(existing, incoming) == SentenceMerge(existing, InitialTexts(existing))
    decreases |incoming|
  {
    if incoming != [] {
      var init := incoming[..|incoming| - 1];
      assert forall s :: s in init ==> s in incoming;
      SentenceFoldSkips(existing, init);
    }
  }

  // ---------------------------------------------------------------------------
  // Part-of-speech merge
  // ---------------------------------------------------------------------------

  /** The first part of speech whose wordPrototype is empty. */
  function FirstEmptySlot(ps: seq<PartOfSpeech>): (r: Option<nat>)
    ensures r.Some? ==> r.value < |ps| && ps[r.value].wordPrototype == ""
    ensures r.Some? ==> forall j :: 0 <= j < r.value ==> ps[j].wordPrototype != ""
    ensures r.None? ==> forall j :: 0 <= j < |ps| ==> ps[j].wordPrototype != ""
  {
    if ps == [] then None
    else if ps[0].wordPrototype == "" then Some(0)
    else match FirstEmptySlot(ps[1..])
      case Some(i) => Some(i + 1)
      case None => None
  }

  /** Placing one new part of speech: it overwrites the first empty slot if there
      is one, is otherwise appended unless an equal entry is already present. */
  function PlacePartOfSpeech(ps: seq<PartOfSpeech>, p: PartOfSpeech): seq<PartOfSpeech> {
    match FirstEmptySlot(ps)
    case Some(i) => ps[i := p]
    case None => if p in ps then ps else ps + [p]
  }

  /** Placing puts the new entry in the list: it overwrites exactly the first
      slot with an empty prototype; with no such slot the list is kept when an
      equal entry is present and grows by the new entry otherwise. Resolved
      slots are never touched. */
  lemma PlacePartOfSpeechSpec(ps: seq<PartOfSpeech>, p: PartOfSpeech)
    ensures var r := PlacePartOfSpeech(ps, p);
      p in r
      && |ps| <= |r| <= |ps| + 1
      && (forall i :: 0 <= i < |ps| && ps[i].wordPrototype != "" ==> r[i] == ps[i])
      && (forall i, j :: 0 <= i < |ps| && 0 <= j < |ps| && i != j && r[i] != ps[i] ==> r[j] == ps[j])
      && (forall j :: 0 <= j < |ps| && ps[j].wordPrototype == "" && (forall k :: 0 <= k < j ==> ps[k].wordPrototype != "")
            ==> r == ps[j := p])
      && ((forall j :: 0 <= j < |ps| ==> ps[j].wordPrototype != "") && p in ps ==> r == ps)
      && ((forall j :: 0 <= j < |ps| ==> ps[j].wordPrototype != "") && p !in ps ==> r == ps + [p])
      && (|r| == |ps| + 1 <==> FirstEmptySlot(ps).None? && p !in ps)
  {
    match FirstEmptySlot(ps)
    case Some(i) =>
      assert ps[i := p][i] == p;
      forall j | 0 <= j < |ps| && ps[j].wordPrototype == "" && (forall k :: 0 <= k < j ==> ps[k].wordPrototype != "")
        ensures j == i
      {
        FirstEmptySlotAt(ps, j);
      }
    case None =>
  }

  function PartsOfSpeechUnion(ps: seq<PartOfSpeech>, incoming: seq<PartOfSpeech>): seq<PartOfSpeech>
    decreases |incoming|
  {
    if incoming == [] then ps
    else PlacePartOfSpeech(PartsOfSpeechUnion(ps, incoming[..|incoming| - 1]), incoming[|incoming| - 1])
  }

  /** The nested part-of-speech loops of `merge_word_lists` (old list non-empty). */
  method MergePartsOfSpeech(existing: seq<PartOfSpeech>, incoming: seq<PartOfSpeech>)
    returns (ps: seq<PartOfSpeech>)
    ensures ps == PartsOfSpeechUnion(existing, incoming)
  {
    ps := existing;
    for k := 0 to |incoming|
      invariant ps == PartsOfSpeechUnion(existing, incoming[..k])
    {
      assert incoming[..k + 1][..k] == incoming[..k];
      var newp := incoming[k];
      var replaced := false;
      var i := 0;
      while i < |ps|
        invariant 0 <= i <= |ps|
        invariant forall j :: 0 <= j < i ==> ps[j].wordPrototype != ""
        invariant !replaced
      {
        if ps[i].wordPrototype == "" {
          break;
        }
        i := i + 1;
      }
      if i < |ps| {
        assert FirstEmptySlot(ps) == Some(i);
        ps := ps[i := newp];
        replaced := true;
      } else {
        assert FirstEmptySlot(ps).None?;
        if newp !in ps {
          ps := ps + [newp];
        }
      }
    }
    assert incoming[..|incoming|] == incoming;
  }

  /** Merged parts of speech never lose a resolved slot, keep their length
      within bounds, and contain every incoming entry that was placed last. */
  lemma {:induction false} PartsOfSpeechUnionKeepsResolved(ps: seq<PartOfSpeech>, incoming: seq<PartOfSpeech>)
    ensures var r := PartsOfSpeechUnion(ps, incoming);
      |ps| <= |r| <= |ps| + |incoming|
      && (forall i :: 0 <= i < |ps| && ps[i].wordPrototype != "" ==> r[i] == ps[i])
      && (incoming != [] ==> incoming[|incoming| - 1] in r)
    decreases |incoming|
  {
    if incoming != [] {
      var init := incoming[..|incoming| - 1];
      PartsOfSpeechUnionKeepsResolved(ps, init);
      PlacePartOfSpeechSpec(PartsOfSpeechUnion(ps, init), incoming[|incoming| - 1]);
    }
  }

  /** When the existing list has `e` empty slots, the first `e` incoming entries
      fill them in order and nothing is appended until they are used up. */
  lemma {:induction false} PartsOfSpeechFillSlots(ps: seq<PartOfSpeech>, incoming: seq<PartOfSpeech>)
    requires forall i :: 0 <= i < |ps| ==> ps[i].wordPrototype == ""
    requires |incoming| <= |ps|
    requires forall i :: 0 <= i < |incoming| ==> incoming[i].wordPrototype != ""
    ensures PartsOfSpeechUnion(ps, incoming) == incoming + ps[|incoming|..]
    decreases |incoming|
  {
    if incoming != [] {
      var n := |incoming| - 1;
      var init := incoming[..n];
      PartsOfSpeechFillSlots(ps, init);
      var cur := init + ps[n..];
      assert cur[n] == ps[n];
      FillOneSlot(ps, incoming, cur);
    }
  }

  /** The step of the lemma above: the last incoming entry lands in slot `n`. */
  lemma FillOneSlot(ps: seq<PartOfSpeech>, incoming: seq<PartOfSpeech>, cur: seq<PartOfSpeech>)
    requires 0 < |incoming| <= |ps|
    requires cur == incoming[..|incoming| - 1] + ps[|incoming| - 1..]
    requires cur[|incoming| - 1].wordPrototype == ""
    requires forall i :: 0 <= i < |incoming| - 1 ==> incoming[i].wordPrototype != ""
    requires PartsOfSpeechUnion(ps, incoming[..|incoming| - 1]) == cur
    ensures PartsOfSpeechUnion(ps, incoming) == incoming + ps[|incoming|..]
  {
    var n := |incoming| - 1;
    forall j | 0 <= j < n ensures cur[j].wordPrototype != "" {
      assert cur[j] == incoming[j];
    }
    FirstEmptySlotAt(cur, n);
    calc {
      PartsOfSpeechUnion(ps, incoming);
      PlacePartOfSpeech(cur, incoming[n]);
      cur[n := incoming[n]];
      { SlotFilled(ps, incoming, cur); }
      incoming + ps[n + 1..];
    }
  }

  lemma SlotFilled(ps: seq<PartOfSpeech>, incoming: seq<PartOfSpeech>, cur: seq<PartOfSpeech>)
    requires 0 < |incoming| <= |ps|
    requires cur == incoming[..|incoming| - 1] + ps[|incoming| - 1..]
    ensures cur[|incoming| - 1 := incoming[|incoming| - 1]] == incoming + ps[|incoming|..]
  {
    var n := |incoming| - 1;
    var r := cur[n := incoming[n]];
    var e := incoming + ps[n + 1..];
    forall j | 0 <= j < |r| ensures r[j] == e[j] {
      if j > n { assert r[j] == cur[j] == ps[j]; }
    }
  }

  lemma FirstEmptySlotAt(ps: seq<PartOfSpeech>, n: nat)
    requires n < |ps| && ps[n].wordPrototype == ""
    requires forall j :: 0 <= j < n ==> ps[j].wordPrototype != ""
    ensures FirstEmptySlot(ps) == Some(n)
  {
  }

  // ---------------------------------------------------------------------------
  // Record merge
  // ---------------------------------------------------------------------------

  /** Merging a new record into an indexed one: the indexed record keeps its word
      and URL; sentences are unioned; the part-of-speech list is taken whole when
      the indexed one has none, merged slot by slot otherwise, and untouched when
      the new record has none. */
  function MergeInto(existing: WordInfo, incoming: WordInfo): WordInfo {
    var pos :=
      if incoming.partOfSpeech == [] then existing.partOfSpeech
      else if existing.partOfSpeech == [] then incoming.partOfSpeech
      else PartsOfSpeechUnion(existing.partOfSpeech, incoming.partOfSpeech);
    existing.(sentences := SentenceUnion(existing.sentences, incoming.sentences), partOfSpeech := pos)
  }

  /** What merging a record into the indexed one guarantees: word and URL are
      kept; the old sentences stay in front, every appended sentence comes from
      the new record and repeats no earlier text, and every new text ends up
      present; resolved part-of-speech slots are kept, the list only grows and
      holds the last new part; a record without parts of speech takes the new
      list whole. */
  lemma MergeIntoSpec(existing: WordInfo, incoming: WordInfo)
    ensures var r := MergeInto(existing, incoming);
      var n := |existing.sentences|;
      r.word == existing.word && r.wordUrl == existing.wordUrl
      && existing.sentences <= r.sentences
      && (forall i :: n <= i < |r.sentences| ==> r.sentences[i] in incoming.sentences)
      && AppendedDistinct(r.sentences, n)
      && (forall s :: s in incoming.sentences ==> exists i :: 0 <= i < |r.sentences| && r.sentences[i].text == s.text)
      && |existing.partOfSpeech| <= |r.partOfSpeech|
      && (forall i :: 0 <= i < |existing.partOfSpeech| && existing.partOfSpeech[i].wordPrototype != "" ==>
            r.partOfSpeech[i] == existing.partOfSpeech[i])
      && (incoming.partOfSpeech != [] ==> incoming.partOfSpeech[|incoming.partOfSpeech| - 1] in r.partOfSpeech)
      && (existing.partOfSpeech == [] ==> r.partOfSpeech == incoming.partOfSpeech)
  {
    var r := MergeInto(existing, incoming);
    var n := |existing.sentences|;
    SentenceFoldShape(existing.sentences, incoming.sentences);
    SentenceUnionDistinct(existing.sentences, incoming.sentences);
    forall s | s in incoming.sentences
      ensures exists i :: 0 <= i < |r.sentences| && r.sentences[i].text == s.text
    {
      if s.text in InitialTexts(existing.sentences) {
        var i :| 0 <= i < n && HasText(existing.sentences[i]) && existing.sentences[i].text == s.text;
        assert r.sentences[i] == existing.sentences[i];
      } else {
        var tail := r.sentences[n..];
        assert s.text in TextsOf(tail);
        var i :| 0 <= i < |tail| && tail[i].text == s.text;
        assert r.sentences[n + i] == tail[i];
      }
    }
    if incoming.partOfSpeech != [] && existing.partOfSpeech != [] {
      PartsOfSpeechUnionKeepsResolved(existing.partOfSpeech, incoming.partOfSpeech);
    }
  }

  // ---------------------------------------------------------------------------
  // Corpus merge
  // ---------------------------------------------------------------------------

  /** The keys of a list of records, position by position. */
  function KeySeq(items: seq<WordInfo>): (ks: seq<Option<string>>)
    ensures |ks| == |items|
    ensures forall i :: 0 <= i < |items| ==> ks[i] == Key(items[i])
  {
    seq(|items|, i requires 0 <= i < |items| => Key(items[i]))
  }

  lemma KeySeqSnoc(items: seq<WordInfo>, x: WordInfo)
    ensures KeySeq(items + [x]) == KeySeq(items) + [Key(x)]
  {
    assert forall i :: 0 <= i < |items| ==> (items + [x])[i] == items[i];
  }

  /** The set of keys that occur in a key sequence. */
  function KeySet(ks: seq<Option<string>>): set<string> {
    set i | 0 <= i < |ks| && ks[i].Some? :: ks[i].value
  }

  lemma KeySetSnoc(ks: seq<Option<string>>, k: Option<string>)
    ensures KeySet(ks + [k]) == KeySet(ks) + (if k.Some? then {k.value} else {})
  {
    var all := ks + [k];
    assert forall i :: 0 <= i < |ks| ==> all[i] == ks[i];
    assert all[|ks|] == k;
  }

  /** The prototype index `proto_map` over a key sequence: key -> position,
      the last position wins. */
  function LastIndex(ks: seq<Option<string>>): (m: map<string, nat>)
    ensures forall p :: p in m ==> m[p] < |ks|
    decreases |ks|
  {
    if ks == [] then map[]
    else
      var m := LastIndex(ks[..|ks| - 1]);
      match ks[|ks| - 1]
      case Some(p) => m[p := |ks| - 1]
      case None => m
  }

  /** The index knows exactly the keys that occur. */
  lemma {:induction false} LastIndexKeys(ks: seq<Option<string>>)
    ensures forall p :: p in LastIndex(ks) <==> p in KeySet(ks)
    decreases |ks|
  {
    if ks != [] {
      var n := |ks| - 1;
      LastIndexKeys(ks[..n]);
      assert ks == ks[..n] + [ks[n]];
      KeySetSnoc(ks[..n], ks[n]);
    }
  }

  /** The index points, for every key, at the last position carrying it. */
  lemma LastIndexLast(ks: seq<Option<string>>)
    ensures forall p :: p in LastIndex(ks) ==>
      ks[LastIndex(ks)[p]] == Some(p)
      && forall j :: LastIndex(ks)[p] < j < |ks| ==> ks[j] != Some(p)
  {
    forall p | p in LastIndex(ks)
      ensures ks[LastIndex(ks)[p]] == Some(p)
      ensures forall j :: LastIndex(ks)[p] < j < |ks| ==> ks[j] != Some(p)
    {
      LastIndexLastAt(ks, p);
    }
  }

  lemma {:induction false} LastIndexLastAt(ks: seq<Option<string>>, p: string)
    requires p in LastIndex(ks)
    ensures ks[LastIndex(ks)[p]] == Some(p)
    ensures forall j :: LastIndex(ks)[p] < j < |ks| ==> ks[j] != Some(p)
    decreases |ks|
  {
    var n := |ks| - 1;
    var init := ks[..n];
    if ks[n] != Some(p) {
      assert LastIndex(ks)[p] == LastIndex(init)[p];
      LastIndexLastAt(init, p);
      assert ks[LastIndex(ks)[p]] == init[LastIndex(ks)[p]];
      forall j | LastIndex(ks)[p] < j < |ks| ensures ks[j] != Some(p) {
        if j < n {
          assert ks[j] == init[j];
        }
      }
    }
  }

  /** The prototype index built from the base list. */
  function BuildIndex(items: seq<WordInfo>): (m: map<string, nat>)
    ensures forall p :: p in m ==> m[p] < |items|
  {
    LastIndex(KeySeq(items))
  }

  /** The state of the merge loop: the merged list and the prototype index. */
  datatype MergeState = MergeState(merged: seq<WordInfo>, index: map<string, nat>)

  predicate IndexValid(st: MergeState) {
    forall p :: p in st.index ==> st.index[p] < |st.merged|
  }

  function MergeStep(st: MergeState, incoming: WordInfo): (r: MergeState)
    requires IndexValid(st)
    ensures IndexValid(r)
    ensures |st.merged| <= |r.merged| <= |st.merged| + 1
  {
    match Key(incoming)
    case Some(p) =>
      if p in st.index then
        var i := st.index[p];
        MergeState(st.merged[i := MergeInto(st.merged[i], incoming)], st.index)
      else
        MergeState(st.merged + [incoming], st.index[p := |st.merged|])
    case None => MergeState(st.merged + [incoming], st.index)
  }

  function MergeFold(base: seq<WordInfo>, news: seq<WordInfo>): (st: MergeState)
    ensures IndexValid(st)
    decreases |news|
  {
    if news == [] then MergeState(base, BuildIndex(base))
    else MergeStep(MergeFold(base, news[..|news| - 1]), news[|news| - 1])
  }

  /** The list `merge_word_lists(base, news)` returns. */
  function MergedCorpus(base: seq<WordInfo>, news: seq<WordInfo>): seq<WordInfo> {
    MergeFold(base, news).merged
  }

  /** `merge_word_lists`. */
  method MergeWordLists(base: seq<WordInfo>, news: seq<WordInfo>) returns (merged: seq<WordInfo>)
    ensures merged == MergedCorpus(base, news)
  {
    merged := base;
    var protoMap := IndexPrototypes(merged);
    for k := 0 to |news|
      invariant MergeState(merged, protoMap) == MergeFold(base, news[..k])
    {
      assert news[..k + 1][..k] == news[..k];
      merged, protoMap := MergeOne(merged, protoMap, news[k]);
    }
    assert news[..|news|] == news;
  }

  /** One pass of the second loop of `merge_word_lists`. */
  method MergeOne(merged: seq<WordInfo>, protoMap: map<string, nat>, item: WordInfo)
    returns (merged': seq<WordInfo>, protoMap': map<string, nat>)
    requires IndexValid(MergeState(merged, protoMap))
    ensures MergeState(merged', protoMap') == MergeStep(MergeState(merged, protoMap), item)
  {
    var protoNew := GetPrototype(item);
    assert Key(item) == (if protoNew.Some? && protoNew.value != "" then protoNew else None);
    protoMap' := protoMap;
    if protoNew.Some? && protoNew.value != "" && protoNew.value in protoMap {
      var i := protoMap[protoNew.value];
      var existing := merged[i];
      var sentences := MergeSentences(existing.sentences, item.sentences);
      var pos := existing.partOfSpeech;
      if |item.partOfSpeech| > 0 {
        if |pos| == 0 {
          pos := item.partOfSpeech;
        } else {
          pos := MergePartsOfSpeech(pos, item.partOfSpeech);
        }
      }
      merged' := merged[i := existing.(sentences := sentences, partOfSpeech := pos)];
    } else {
      merged' := merged + [item];
      if protoNew.Some? && protoNew.value != "" {
        protoMap' := protoMap[protoNew.value := |merged'| - 1];
      }
    }
  }

  /** The first loop of `merge_word_lists`: the prototype index of the base list. */
  method IndexPrototypes(items: seq<WordInfo>) returns (protoMap: map<string, nat>)
    ensures protoMap == BuildIndex(items)
  {
    protoMap := map[];
    ghost var ks := KeySeq(items);
    for idx := 0 to |items|
      invariant protoMap == LastIndex(ks[..idx])
    {
      assert ks[..idx + 1][..idx] == ks[..idx];
      var proto := GetPrototype(items[idx]);
      assert ks[idx] == (if proto.Some? && proto.value != "" then proto else None);
      if proto.Some? && proto.value != "" {
        protoMap := protoMap[proto.value := idx];
      }
    }
    assert ks[..|items|] == ks;
  }

  /** The set of keys carried by a list of records. */
  function KeysOf(items: seq<WordInfo>): set<string> {
    KeySet(KeySeq(items))
  }

  /** The merge index knows exactly the keys of the base and of the new records
      processed so far, and the merged list is never shorter than the base. */
  lemma {:induction false} MergeFoldIndex(base: seq<WordInfo>, news: seq<WordInfo>)
    ensures forall p :: p in MergeFold(base, news).index <==> p in KeysOf(base + news)
    ensures |base| <= |MergedCorpus(base, news)| <= |base| + |news|
    decreases |news|
  {
    if news == [] {
      LastIndexKeys(KeySeq(base));
      assert base + news == base;
    } else {
      var init := news[..|news| - 1];
      var x := news[|news| - 1];
      MergeFoldIndex(base, init);
      assert base + news == (base + init) + [x];
      KeySeqSnoc(base + init, x);
      KeySetSnoc(KeySeq(base + init), Key(x));
    }
  }

  /** The number of records a batch adds: one for each new record that has no
      key, or whose key occurs neither in the base nor earlier in the batch. */
  function FreshCount(base: seq<WordInfo>, news: seq<WordInfo>): nat
    decreases |news|
  {
    if news == [] then 0
    else
      var init := news[..|news| - 1];
      var x := news[|news| - 1];
      FreshCount(base, init)
        + (if Key(x).Some? && Key(x).value in KeysOf(base + init) then 0 else 1)
  }

  /** The merged list grows by exactly the number of fresh records. */
  lemma {:induction false} MergedCorpusLength(base: seq<WordInfo>, news: seq<WordInfo>)
    ensures |MergedCorpus(base, news)| == |base| + FreshCount(base, news)
    decreases |news|
  {
    if news != [] {
      var init := news[..|news| - 1];
      MergedCorpusLength(base, init);
      MergeFoldIndex(base, init);
    }
  }

  /** A batch none of whose records has a key is appended verbatim. */
  lemma {:induction false} UnkeyedAppended(base: seq<WordInfo>, news: seq<WordInfo>)
    requires forall x :: x in news ==> Key(x).None?
    ensures MergedCorpus(base, news) == base + news
    decreases |news|
  {
    if news != [] {
      var init := news[..|news| - 1];
      assert forall x :: x in init ==> x in news;
      UnkeyedAppended(base, init);
      assert (base + init) + [news[|news| - 1]] == base + news;
    }
  }

  /** Index entries that point into the base are exactly the base index's own
      entries: the merge never re-points a key at a base position. */
  lemma {:induction false} MergeFoldStable(base: seq<WordInfo>, news: seq<WordInfo>)
    ensures forall p :: p in MergeFold(base, news).index && MergeFold(base, news).index[p] < |base| ==>
      p in BuildIndex(base) && BuildIndex(base)[p] == MergeFold(base, news).index[p]
    decreases |news|
  {
    if news != [] {
      var init := news[..|news| - 1];
      var x := news[|news| - 1];
      MergeFoldStable(base, init);
      MergeFoldIndex(base, init);
      var st := MergeFold(base, init);
      assert MergeFold(base, news) == MergeStep(st, x);
      match Key(x)
      case None =>
      case Some(p) =>
        if p !in st.index {
          assert MergeStep(st, x).index == st.index[p := |st.merged|];
        }
    }
  }

  /** A base record the base index does not point at (it has no key, or a later
      base record shares its key) is never touched by the merge. */
  lemma {:induction false} ShadowedBaseUntouched(base: seq<WordInfo>, news: seq<WordInfo>, i: nat)
    requires i < |base|
    requires forall p :: p in BuildIndex(base) ==> BuildIndex(base)[p] != i
    ensures i < |MergedCorpus(base, news)| && MergedCorpus(base, news)[i] == base[i]
    decreases |news|
  {
    MergeFoldIndex(base, news);
    if news != [] {
      var init := news[..|news| - 1];
      var x := news[|news| - 1];
      ShadowedBaseUntouched(base, init, i);
      MergeFoldStable(base, init);
      MergeFoldIndex(base, init);
      var st := MergeFold(base, init);
      assert MergeFold(base, news) == MergeStep(st, x);
      match Key(x)
      case None =>
        assert MergeStep(st, x).merged == st.merged + [x];
      case Some(p) =>
        if p in st.index {
          var j := st.index[p];
          assert j != i;
          assert MergeStep(st, x).merged[i] == st.merged[i];
        } else {
          assert MergeStep(st, x).merged[i] == st.merged[i];
        }
    }
  }

  /** Two new records with the same fresh key become one record: the first,
      with the second merged into it. */
  lemma SameBatchMerged(base: seq<WordInfo>, a: WordInfo, b: WordInfo)
    requires Key(a).Some? && Key(b) == Key(a)
    requires Key(a).value !in KeysOf(base)
    ensures MergedCorpus(base, [a, b]) == base + [MergeInto(a, b)]
  {
    LastIndexKeys(KeySeq(base));
    StepTwice(MergeFold(base, []), a, b, Key(a).value);
    MergeFoldSnoc(base, [], a);
    SnocEmpty(a);
    MergeFoldSnoc(base, [a], b);
    SnocPair(a, b);
  }

  lemma StepTwice(st: MergeState, a: WordInfo, b: WordInfo, p: string)
    requires IndexValid(st) && Key(a) == Some(p) && Key(b) == Some(p) && p !in st.index
    ensures MergeStep(MergeStep(st, a), b).merged == st.merged + [MergeInto(a, b)]
  {
    MergeStepFresh(st, a, p);
    MergeStepKnown(MergeStep(st, a), b, p);
    SnocUpdate(st.merged, a, MergeInto(a, b));
  }

  lemma SnocUpdate<T>(xs: seq<T>, a: T, m: T)
    ensures (xs + [a])[|xs| := m] == xs + [m]
  {
  }

  lemma SnocEmpty<T>(a: T)
    ensures [] + [a] == [a]
  {
  }

  lemma SnocPair<T>(a: T, b: T)
    ensures [a] + [b] == [a, b]
  {
  }

  lemma MergeStepFresh(st: MergeState, x: WordInfo, p: string)
    requires IndexValid(st) && Key(x) == Some(p) && p !in st.index
    ensures MergeStep(st, x) == MergeState(st.merged + [x], st.index[p := |st.merged|])
  {
  }

  lemma MergeStepKnown(st: MergeState, x: WordInfo, p: string)
    requires IndexValid(st) && Key(x) == Some(p) && p in st.index
    ensures MergeStep(st, x).merged == st.merged[st.index[p] := MergeInto(st.merged[st.index[p]], x)]
  {
  }

  lemma MergeFoldSnoc(base: seq<WordInfo>, news: seq<WordInfo>, x: WordInfo)
    ensures MergeFold(base, news + [x]) == MergeStep(MergeFold(base, news), x)
  {
    assert (news + [x])[..|news|] == news;
  }

  // ---------------------------------------------------------------------------
  // The merge is not idempotent
  // ---------------------------------------------------------------------------

  /** A record with neither a prototype nor a sentence text. */
  const Unkeyed := WordInfo("x", "", [], [])

  /** Merging a batch into the result of merging that batch again duplicates any
      record without a key, so merging is not idempotent. */
  lemma MergeNotIdempotent()
    ensures MergedCorpus(MergedCorpus([], [Unkeyed]), [Unkeyed]) != MergedCorpus([], [Unkeyed])
  {
    assert Key(Unkeyed).None?;
    UnkeyedAppended([], [Unkeyed]);
    assert MergedCorpus([], [Unkeyed]) == [Unkeyed];
    UnkeyedAppended([Unkeyed], [Unkeyed]);
    assert |MergedCorpus([Unkeyed], [Unkeyed])| == 2;
  }
}
