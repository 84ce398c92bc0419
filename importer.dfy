/** The subtitle-to-card importer of code/movie/import_to_anki.py: the map from
    cleaned English subtitle text to its (Chinese, English) pair, the lookup of a
    sentence's Chinese translation in it, time-stamp formatting and the two
    example-field templates. */
module Importer {
  import opened Wrappers
  import opened Text
  import opened Patterns
  import opened Subtitles
  import Save
  import Cards

  // ----- the dialogue map -----

  /** A map entry: the cleaned English key and the (Chinese, English) pair. */
  type Entry = (string, (string, string))

  /** `dialogues_map`: a dict with string keys; `keys` is its insertion order,
      which `dict.items()` follows. */
  datatype DialogueMap = DialogueMap(keys: seq<string>, entries: map<string, (string, string)>)

  /** The keys are distinct and are exactly the keys of the entries. */
  predicate Valid(m: DialogueMap) {
    (forall i, j :: 0 <= i < j < |m.keys| ==> m.keys[i] != m.keys[j])
    && (forall k :: k in m.keys ==> k in m.entries)
    && (forall k :: k in m.entries ==> k in m.keys)
  }

  const EmptyMap: DialogueMap := DialogueMap([], map[])

  /** `m[k] = v`: a new key goes last, an existing key keeps its place. */
  function Put(m: DialogueMap, k: string, v: (string, string)): DialogueMap {
    if k in m.entries then DialogueMap(m.keys, m.entries[k := v])
    else DialogueMap(m.keys + [k], m.entries[k := v])
  }

  /** Setting a key keeps the map well formed, stores the value, and leaves every
      other entry and the order of the old keys as they were. */
  lemma PutSpec(m: DialogueMap, k: string, v: (string, string))
    requires Valid(m)
    ensures var r := Put(m, k, v);
      Valid(r) && r.entries == m.entries[k := v]
      && (k in m.entries ==> r.keys == m.keys)
      && (k !in m.entries ==> r.keys == m.keys + [k])
  {
  }

  /** The map the assignments `es` build, one after another, from an empty dict. */
  function MapOf(es: seq<Entry>): DialogueMap {
    if es == [] then EmptyMap
    else
      var last := es[|es| - 1];
      Put(MapOf(es[..|es| - 1]), last.0, last.1)
  }

  function EntryKey(e: Entry): string {
    e.0
  }

  /** The built map is well formed and its keys are the keys assigned. */
  lemma {:induction false} MapOfValid(es: seq<Entry>)
    ensures Valid(MapOf(es))
    ensures MapOf(es).entries.Keys == Save.KeySetOf(es, EntryKey)
  {
    if es != [] {
      var init := es[..|es| - 1];
      var last := es[|es| - 1];
      MapOfValid(init);
      PutSpec(MapOf(init), last.0, last.1);
      assert es == init + [last];
      Save.KeySetOfSnoc(init, last, EntryKey);
    }
  }

  /** The keys are in the order of their first assignment. */
  lemma {:induction false} MapOfOrder(es: seq<Entry>)
    ensures MapOf(es).keys == Cards.Mapped(Save.Dedup(es, EntryKey), EntryKey)
  {
    if es != [] {
      var init := es[..|es| - 1];
      var last := es[|es| - 1];
      MapOfOrder(init);
      MapOfValid(init);
      if last.0 !in Save.KeySetOf(init, EntryKey) {
        MappedAppend(Save.Dedup(init, EntryKey), last, EntryKey);
      }
    }
  }

  /** Each key holds the value of its last assignment. */
  lemma {:induction false} MapOfLastWins(es: seq<Entry>, i: nat)
    requires i < |es|
    requires forall j :: i < j < |es| ==> es[j].0 != es[i].0
    ensures es[i].0 in MapOf(es).entries && MapOf(es).entries[es[i].0] == es[i].1
  {
    var init := es[..|es| - 1];
    if i < |es| - 1 {
      assert es[i] == init[i];
      assert forall j :: i < j < |init| ==> init[j] == es[j];
      MapOfLastWins(init, i);
    }
  }

  lemma MappedAppend<T, U>(xs: seq<T>, x: T, f: T -> U)
    ensures Cards.Mapped(xs + [x], f) == Cards.Mapped(xs, f) + [f(x)]
  {
  }

  lemma MapOfSnoc(es: seq<Entry>, e: Entry)
    ensures MapOf(es + [e]) == Put(MapOf(es), e.0, e.1)
  {
    assert (es + [e])[..|es|] == es;
  }

  /** The loop that fills `dialogues_map`: one assignment for each item that
      yields an entry. */
  method BuildMap<S>(items: seq<S>, entry: S -> Option<Entry>) returns (m: DialogueMap)
    ensures m == MapOf(Cards.Gathered(items, entry))
  {
    m := EmptyMap;
    for k := 0 to |items|
      invariant m == MapOf(Cards.Gathered(items[..k], entry))
    {
      Cards.GatheredSnoc(items, k, entry);
      var e := entry(items[k]);
      if e.Some? {
        MapOfSnoc(Cards.Gathered(items[..k], entry), e.value);
        m := Put(m, e.value.0, e.value.1);
      } else {
        Cards.AppendNothing(Cards.Gathered(items[..k], entry));
      }
    }
    assert items[..|items|] == items;
  }

  /** The entry of a dialogue: its cleaned English text maps to its two parts. */
  function DialogueEntry(d: Dialogue): Entry {
    (Clean(d.english), (d.chinese, d.english))
  }

  /** An ASS line yields an entry when it is a dialogue with an English part. */
  function AssEntry(line: string): Option<Entry> {
    match AssDialogue(line)
    case None => None
    case Some(d) => if KeepForTiming(d) then Some(DialogueEntry(d)) else None
  }

  /** An SRT block yields an entry when its lines have an English part; its times
      are not used. */
  function SrtEntry(block: SrtBlock): Option<Entry> {
    var (chinese, english) := ClassifyLines(SrtLines(block.text));
    if english != "" then Some((Clean(english), (chinese, english))) else None
  }

  /** Gathering the entries of the kept values is mapping over the kept values. */
  lemma {:induction false} GatheredOfCollected<T, U>(lines: seq<string>, parse: string -> Option<T>, keep: T -> bool,
                                                     entry: T -> U, g: string -> Option<U>)
    requires forall line :: g(line) == (match parse(line) case None => None case Some(d) => if keep(d) then Some(entry(d)) else None)
    ensures Cards.Gathered(lines, g) == Cards.Mapped(Collected(lines, parse, keep), entry)
  {
    if lines != [] {
      var init := lines[..|lines| - 1];
      GatheredOfCollected(init, parse, keep, entry, g);
      match parse(lines[|lines| - 1])
      case None =>
      case Some(d) =>
        if keep(d) {
          MappedAppend(Collected(init, parse, keep), d, entry);
        }
    }
  }

  /** The ASS entries are those of exactly the dialogues the timing reader keeps. */
  lemma AssEntriesOfTimingDialogues(lines: seq<string>)
    ensures Cards.Gathered(lines, AssEntry) == Cards.Mapped(ParsedAss(lines, KeepForTiming), DialogueEntry)
  {
    GatheredOfCollected(lines, AssDialogue, KeepForTiming, DialogueEntry, AssEntry);
  }

  /** `parse_ass_file` (which reads SRT files too): by the lower-cased suffix, the
      map of the SRT blocks or of the ASS lines, and an empty map for any other
      file. */
  method ParseDialogueMap(path: string, lines: seq<string>, blocks: seq<SrtBlock>) returns (m: DialogueMap)
    ensures SubtitleFormat(path) == Success(Srt) ==> m == MapOf(Cards.Gathered(blocks, SrtEntry))
    ensures SubtitleFormat(path) == Success(Ass) ==> m == MapOf(Cards.Gathered(lines, AssEntry))
    ensures SubtitleFormat(path).Failure? ==> m == EmptyMap
  {
    var format := SubtitleFormat(path);
    if format == Success(Srt) {
      m := BuildMap(blocks, SrtEntry);
    } else if format == Success(Ass) {
      m := BuildMap(lines, AssEntry);
    } else {
      m := EmptyMap;
    }
  }

  // ----- the Chinese of a sentence -----

  /** `a in b or b in a`. */
  predicate Overlaps(sentenceClean: string, key: string) {
    Contains(key, sentenceClean) || Contains(sentenceClean, key)
  }

  function OverlapsWith(sentenceClean: string): string -> bool {
    key => Overlaps(sentenceClean, key)
  }

  /** The Chinese of the exact key, else of the first key in insertion order that
      overlaps the cleaned sentence, else `""`. */
  function ChineseFor(sentenceClean: string, m: DialogueMap): string
    requires Valid(m)
  {
    if sentenceClean in m.entries then m.entries[sentenceClean].0
    else
      match FirstWhere(m.keys, OverlapsWith(sentenceClean))
      case None => ""
      case Some(k) =>
        FirstWhereSpec(m.keys, OverlapsWith(sentenceClean));
        m.entries[k].0
  }

  /** `find_chinese_for_sentence`: the exact lookup, then the scan over the keys. */
  method FindChineseForSentence(sentence: string, m: DialogueMap) returns (chinese: string)
    requires Valid(m)
    ensures chinese == ChineseFor(Clean(sentence), m)
  {
    var sentenceClean := Clean(sentence);
    if sentenceClean in m.entries {
      return m.entries[sentenceClean].0;
    }
    var keys := m.keys;
    for k := 0 to |keys|
      invariant FirstWhere(keys, OverlapsWith(sentenceClean)) == FirstWhere(keys[k..], OverlapsWith(sentenceClean))
    {
      assert keys[k..][0] == keys[k] && keys[k..][1..] == keys[k + 1..];
      var key := keys[k];
      if Contains(key, sentenceClean) || Contains(sentenceClean, key) {
        return m.entries[key].0;
      }
    }
    return "";
  }

  /** The exact key wins; otherwise the first overlapping key in insertion order
      decides; with no overlapping key the result is `""`. */
  lemma ChineseForSpec(sentenceClean: string, m: DialogueMap)
    requires Valid(m)
    ensures sentenceClean in m.entries ==> ChineseFor(sentenceClean, m) == m.entries[sentenceClean].0
    ensures sentenceClean !in m.entries && (forall i :: 0 <= i < |m.keys| ==> !Overlaps(sentenceClean, m.keys[i])) ==>
      ChineseFor(sentenceClean, m) == ""
    ensures sentenceClean !in m.entries && (exists i :: 0 <= i < |m.keys| && Overlaps(sentenceClean, m.keys[i])) ==>
      exists i :: 0 <= i < |m.keys| && Overlaps(sentenceClean, m.keys[i])
        && (forall j :: 0 <= j < i ==> !Overlaps(sentenceClean, m.keys[j]))
        && ChineseFor(sentenceClean, m) == m.entries[m.keys[i]].0
  {
    FirstWhereSpec(m.keys, OverlapsWith(sentenceClean));
  }

  /** A sentence that cleans to nothing is contained in every key, so a map with
      keys answers with the Chinese of its first key. */
  lemma EmptySentenceTakesFirstKey(m: DialogueMap)
    requires Valid(m) && m.keys != [] && "" !in m.entries
    ensures ChineseFor("", m) == m.entries[m.keys[0]].0
  {
    ContainsAt(m.keys[0], "", 0);
    assert Overlaps("", m.keys[0]);
    ChineseForSpec("", m);
  }

  // ----- time stamps -----

  /** The centiseconds field: cut to two characters, or padded when it has one. */
  function TwoDigits(cs: string): (r: string)
    ensures cs != "" ==> |r| == 2
  {
    if |cs| > 2 then cs[..2] else if |cs| == 1 then cs + "0" else cs
  }

  /** `format_timestamp`: `H:MM:SS.cc` becomes `H:MM:SS:cc`. */
  function FormatTimestamp(t: string): string {
    if t == "" then ""
    else
      var parts := Split(t, ':');
      if |parts| == 3 then
        var secondsParts := Split(parts[2], '.');
        var centiseconds := if |secondsParts| > 1 then secondsParts[1] else "00";
        parts[0] + ":" + parts[1] + ":" + secondsParts[0] + ":" + TwoDigits(centiseconds)
      else t
  }

  /** Three colon-free fields, the last with a dot-free fraction, become four
      fields with the fraction cut or padded to two characters. */
  lemma FormatTimestampFraction(h: string, m: string, s: string, f: string)
    requires ':' !in h && ':' !in m && ':' !in s && ':' !in f
    requires '.' !in s && '.' !in f
    ensures FormatTimestamp(h + ":" + m + ":" + (s + "." + f)) == h + ":" + m + ":" + s + ":" + TwoDigits(f)
  {
    var sf := s + "." + f;
    SplitFields3(h, m, sf);
    SplitFraction(s, f);
    var t := h + ":" + m + ":" + sf;
    assert t != "" by { assert |t| >= 2; }
  }

  lemma SplitFraction(s: string, f: string)
    requires '.' !in s && '.' !in f
    ensures Split(s + "." + f, '.') == [s, f]
  {
    SplitJoined([s], '.', f);
    SplitAbsent(f, '.');
  }

  /** Without a fraction the centiseconds are `00`. */
  lemma FormatTimestampWhole(h: string, m: string, s: string)
    requires ':' !in h && ':' !in m && ':' !in s && '.' !in s
    ensures FormatTimestamp(h + ":" + m + ":" + s) == h + ":" + m + ":" + s + ":00"
  {
    SplitFields3(h, m, s);
    SplitAbsent(s, '.');
  }

  lemma SplitFields3(h: string, m: string, s: string)
    requires ':' !in h && ':' !in m && ':' !in s
    ensures Split(h + ":" + m + ":" + s, ':') == [h, m, s]
  {
    var fields := [h, m];
    assert Join([':'], fields) == h + ":" + m by {
      assert fields[1..] == [m];
    }
    SplitJoined(fields, ':', s);
    SplitAbsent(s, ':');
  }

  /** Text that is not three colon-separated fields is returned unchanged, and a
      non-empty time stamp never formats to `""`. */
  lemma FormatTimestampOther(t: string)
    ensures |Split(t, ':')| != 3 ==> FormatTimestamp(t) == t
    ensures t != "" ==> FormatTimestamp(t) != ""
  {
  }

  /** The documented example. */
  lemma FormatTimestampExample()
    ensures FormatTimestamp("0:03:16.55") == "0:03:16:55"
  {
    TimestampExamplePieces();
    FormatTimestampFraction("0", "03", "16", "55");
    assert TwoDigits("55") == "55";
  }

  lemma TimestampExamplePieces()
    ensures "0" + ":" + "03" + ":" + ("16" + "." + "55") == "0:03:16.55"
    ensures "0" + ":" + "03" + ":" + "16" + ":" + "55" == "0:03:16:55"
  {
  }

  // ----- the two example templates -----

  /** The Chinese line of the image example: present only for a non-empty translation. */
  function ChineseBlock(chinese: string): (r: string)
    ensures r == "" <==> chinese == ""
  {
    var escaped := if chinese != "" then HtmlEscape(chinese) else "";
    if escaped != "" then
      "<div class=\"definition-ch\" style=\"text-align: center; margin-top: 5px;\">" + escaped + "</div>"
    else ""
  }

  /** ` — 《book》`, followed by a space and the formatted time stamp when there is one. */
  function MetaText(book: string, timestamp: string): string {
    var formatted := if timestamp != "" then FormatTimestamp(timestamp) else "";
    var meta := " \U{2014} \U{300a}" + HtmlEscape(book) + "\U{300b}";
    if formatted != "" then meta + " " + formatted else meta
  }

  /** The time stamp is appended exactly when it is non-empty. */
  lemma MetaTextSpec(book: string, timestamp: string)
    ensures timestamp == "" ==> MetaText(book, timestamp) == " \U{2014} \U{300a}" + HtmlEscape(book) + "\U{300b}"
    ensures timestamp != "" ==>
      MetaText(book, timestamp) == " \U{2014} \U{300a}" + HtmlEscape(book) + "\U{300b}" + " " + FormatTimestamp(timestamp)
  {
    FormatTimestampOther(timestamp);
  }

  /** The player markup around the image; the file names go in unescaped. */
  function ImageHeader(image: string, audio: string): string {
    "\n    <div class='example'>\n        <div style=\"text-align: center; margin: 15px 0;\">\n            <a href=\"javascript:void(0);\" onclick=\"\n                (function() {\n                    var audioId = 'audio-' + '"
    + image
    + "'.replace(/[^a-zA-Z0-9]/g, '');\n                    var audioEl = document.getElementById(audioId);\n                    if (!audioEl) {\n                        audioEl = document.createElement('audio');\n                        audioEl.id = audioId;\n                        audioEl.src = '"
    + audio
    + "';\n                        document.body.appendChild(audioEl);\n                    }\n                    audioEl.play();\n                })();\n                return false;\n            \">\n                <img src=\""
    + image
    + "\" style=\"max-width: 100%; cursor: pointer; border: 2px solid #ddd; border-radius: 8px; box-shadow: 0 2px 8px rgba(0,0,0,0.1);\" />\n            </a>\n        </div>\n        <div class='example-text' style=\"text-align: center; margin-top: 10px;\">\n            "
  }

  /** `build_example_with_image`. */
  function BuildExampleWithImage(image: string, audio: string, sentence: string, chinese: string,
                                 book: string, timestamp: string): string {
    ImageHeader(image, audio) + HtmlEscape(sentence)
    + "\n        </div>\n        " + ChineseBlock(chinese)
    + "\n        <div class='example-meta'>" + MetaText(book, timestamp) + "</div>\n    </div>\n    "
  }

  /** Where the pieces of the image template sit, over arbitrary pieces. */
  lemma TemplateLayout(head: string, s: string, mid: string, cb: string, open: string, meta: string, tail: string)
    ensures Contains(head + s + mid + cb + open + meta + tail, s)
    ensures Contains(head + s + mid + cb + open + meta + tail, meta)
  {
    ContainsMiddle(head, s, mid);
    ContainsExtended(head + s + mid, cb, s);
    ContainsExtended(head + s + mid + cb, open, s);
    ContainsExtended(head + s + mid + cb + open, meta, s);
    ContainsExtended(head + s + mid + cb + open + meta, tail, s);
    ContainsMiddle(head + s + mid + cb + open, meta, tail);
  }

  lemma TemplateInner(head: string, s: string, mid: string, a: string, x: string, b: string,
                      open: string, meta: string, tail: string)
    ensures Contains(head + s + mid + (a + x + b) + open + meta + tail, x)
  {
    ContainsMiddle(a, x, b);
    ContainsPrepended(head + s + mid, a + x + b, x);
    ContainsExtended(head + s + mid + (a + x + b), open, x);
    ContainsExtended(head + s + mid + (a + x + b) + open, meta, x);
    ContainsExtended(head + s + mid + (a + x + b) + open + meta, tail, x);
  }

  lemma TemplateWithout(head: string, s: string, mid: string, open: string, meta: string, tail: string)
    ensures head + s + mid + "" + open + meta + tail == head + s + mid + open + meta + tail
  {
    Cards.AppendNothing(head + s + mid);
  }

  /** The escaped sentence and the meta text appear in the example. */
  lemma ExampleWithImageContents(image: string, audio: string, sentence: string, chinese: string,
                                 book: string, timestamp: string)
    ensures var r := BuildExampleWithImage(image, audio, sentence, chinese, book, timestamp);
      Contains(r, HtmlEscape(sentence)) && Contains(r, MetaText(book, timestamp))
  {
    TemplateLayout(ImageHeader(image, audio), HtmlEscape(sentence), "\n        </div>\n        ",
      ChineseBlock(chinese), "\n        <div class='example-meta'>", MetaText(book, timestamp), "</div>\n    </div>\n    ");
  }

  /** A non-empty translation appears escaped in the example, and an empty one
      leaves no trace. */
  lemma ExampleWithImageChinese(image: string, audio: string, sentence: string, chinese: string,
                                book: string, timestamp: string)
    ensures chinese != "" ==> Contains(BuildExampleWithImage(image, audio, sentence, chinese, book, timestamp), HtmlEscape(chinese))
    ensures chinese == "" ==>
      BuildExampleWithImage(image, audio, sentence, chinese, book, timestamp)
      == ImageHeader(image, audio) + HtmlEscape(sentence) + "\n        </div>\n        "
         + "\n        <div class='example-meta'>" + MetaText(book, timestamp) + "</div>\n    </div>\n    "
  {
    if chinese != "" {
      assert ChineseBlock(chinese)
        == "<div class=\"definition-ch\" style=\"text-align: center; margin-top: 5px;\">" + HtmlEscape(chinese) + "</div>";
      TemplateInner(ImageHeader(image, audio), HtmlEscape(sentence), "\n        </div>\n        ",
        "<div class=\"definition-ch\" style=\"text-align: center; margin-top: 5px;\">", HtmlEscape(chinese), "</div>",
        "\n        <div class='example-meta'>", MetaText(book, timestamp), "</div>\n    </div>\n    ");
    } else {
      assert ChineseBlock(chinese) == "";
      TemplateWithout(ImageHeader(image, audio), HtmlEscape(sentence), "\n        </div>\n        ",
        "\n        <div class='example-meta'>", MetaText(book, timestamp), "</div>\n    </div>\n    ");
    }
  }

  /** `build_blanked_example`: the sentence with the target blanked, then escaped. */
  function BuildBlankedExample(sentence: string, target: string): string {
    "<div class='example'><div class='example-text'>" + Cards.BlankedSentence(sentence, target) + "</div></div>"
  }

  /** Before escaping, the blanked sentence differs from the sentence only in
      alphanumerics turned into `_`. */
  lemma BlankedExampleSpec(sentence: string, target: string)
    ensures exists blanked ::
      Cards.BlanksOf(blanked, sentence)
      && BuildBlankedExample(sentence, target)
         == "<div class='example'><div class='example-text'>" + HtmlEscape(blanked) + "</div></div>"
  {
    var blanked := Sub(sentence, HtmlEscape(Strip(target)), ' ' !in target, Cards.ReplaceAlnum);
    Cards.SubBlanksOnly(sentence, HtmlEscape(Strip(target)), ' ' !in target, 0);
    assert sentence[0..] == sentence;
  }

  /** The pattern is the escaped target but the text it is applied to is not
      escaped: a target holding `&`, `<`, `>`, `"` or `'` is never blanked in a
      sentence without `&`, since its escaped form holds `&`. */
  lemma EscapedTargetUnmatched(sentence: string, target: string)
    requires '&' in HtmlEscape(Strip(target)) && '&' !in sentence
    ensures BuildBlankedExample(sentence, target)
      == "<div class='example'><div class='example-text'>" + HtmlEscape(sentence) + "</div></div>"
  {
    var t := HtmlEscape(Strip(target));
    var bounded := ' ' !in target;
    var j :| 0 <= j < |t| && t[j] == '&';
    forall q | 0 <= q <= |sentence|
      ensures !MatchAt(sentence, t, bounded, q)
    {
      if q + |t| <= |sentence| {
        assert sentence[q + j] in sentence;
        assert LowerChar(sentence[q + j]) != LowerChar(t[j]);
        assert sentence[q..q + |t|][j] == sentence[q + j];
      }
    }
    SubFromUnmatched(sentence, t, bounded, Cards.ReplaceAlnum, 0);
    assert sentence[0..] == sentence;
  }

  /** For example, the target "don't" leaves "I don't know" unblanked. */
  lemma ApostropheTargetExample()
    ensures BuildBlankedExample("I don't know", "don't")
      == "<div class='example'><div class='example-text'>" + HtmlEscape("I don't know") + "</div></div>"
  {
    ApostropheEscaped();
    NoAmpersand();
    EscapedTargetUnmatched("I don't know", "don't");
  }

  lemma NoAmpersand()
    ensures '&' !in "I don't know"
  {
  }

  lemma ApostropheEscaped()
    ensures '&' in HtmlEscape(Strip("don't"))
  {
    var target := "don't";
    assert target[3] == '\'';
    StripUnpadded(target);
    QuoteEscaped(target, 3);
  }

  /** Escaping a string with a quote or an ampersand in it yields an ampersand. */
  lemma {:induction false} QuoteEscaped(s: string, i: nat)
    requires i < |s| && (s[i] == '\'' || s[i] == '"' || s[i] == '&' || s[i] == '<' || s[i] == '>')
    ensures '&' in HtmlEscape(s)
  {
    if i == 0 {
      assert HtmlEscape(s)[0] == '&';
    } else {
      QuoteEscaped(s[1..], i - 1);
      assert HtmlEscape(s) == EscapeChar(s[0]) + HtmlEscape(s[1..]);
    }
  }

}
