/** The parsing side of the audio-extraction tool: pairing the lines of a word
    list, reading ASS `Dialogue:` lines and SRT blocks into dialogues, converting
    SRT times to ASS times, and finding the dialogue that contains a sentence.
    File contents are given as values: the lines of a file as `readlines()`
    returns them, and the blocks the SRT block pattern finds. */
module Subtitles {
  import opened Wrappers
  import opened Text
  import opened Patterns

  /** One subtitle line: ASS-style start and end times, the Chinese part and the
      English part. */
  datatype Dialogue = Dialogue(start: string, end: string, chinese: string, english: string)

  // ----- word list -----

  /** The lines with surrounding whitespace removed. */
  function StrippedLines(lines: seq<string>): (ts: seq<string>)
    ensures |ts| == |lines|
  {
    seq(|lines|, k requires 0 <= k < |lines| => Strip(lines[k]))
  }

  /** The (word, sentence) pairs read from stripped line `i` on: a non-blank line
      directly followed by a non-blank line forms a pair and both are consumed;
      any other line is skipped on its own. */
  function PairsFrom(ts: seq<string>, i: nat): seq<(string, string)>
    decreases |ts| - i
  {
    if i >= |ts| then []
    else if ts[i] != "" && i + 1 < |ts| && ts[i + 1] != "" then
      [(ts[i], ts[i + 1])] + PairsFrom(ts, i + 2)
    else
      PairsFrom(ts, i + 1)
  }

  function WordPairs(lines: seq<string>): seq<(string, string)> {
    PairsFrom(StrippedLines(lines), 0)
  }

  /** `parse_words_file` on the lines of the file: each line is stripped, then
      the pairing loop runs over the stripped lines. */
  method ParseWordsFile(lines: seq<string>) returns (pairs: seq<(string, string)>)
    ensures pairs == WordPairs(lines)
  {
    pairs := PairLines(StrippedLines(lines));
  }

  /** The pairing loop: a non-blank line followed by a non-blank line is a pair
      and both are consumed; any other line is skipped alone. */
  method PairLines(ts: seq<string>) returns (pairs: seq<(string, string)>)
    ensures pairs == PairsFrom(ts, 0)
  {
    pairs := [];
    var i := 0;
    while i < |ts|
      invariant i <= |ts|
      invariant PairsFrom(ts, 0) == pairs + PairsFrom(ts, i)
      decreases |ts| - i
    {
      var line := ts[i];
      if line != "" {
        var word := line;
        if i + 1 < |ts| {
          var sentence := ts[i + 1];
          if sentence != "" {
            PairsFromPair(ts, i);
            pairs := pairs + [(word, sentence)];
            i := i + 2;
          } else {
            PairsFromSkip(ts, i);
            i := i + 1;
          }
        } else {
          PairsFromSkip(ts, i);
          i := i + 1;
        }
      } else {
        PairsFromSkip(ts, i);
        i := i + 1;
      }
    }
  }

  lemma PairsFromPair(ts: seq<string>, i: nat)
    requires i + 1 < |ts| && ts[i] != "" && ts[i + 1] != ""
    ensures PairsFrom(ts, i) == [(ts[i], ts[i + 1])] + PairsFrom(ts, i + 2)
  {
  }

  lemma PairsFromSkip(ts: seq<string>, i: nat)
    requires i < |ts| && !(ts[i] != "" && i + 1 < |ts| && ts[i + 1] != "")
    ensures PairsFrom(ts, i) == PairsFrom(ts, i + 1)
  {
  }

  /** The line numbers at which the pairs read from line `i` on start. */
  function PairStartsFrom(ts: seq<string>, i: nat): seq<nat>
    decreases |ts| - i
  {
    if i >= |ts| then []
    else if ts[i] != "" && i + 1 < |ts| && ts[i + 1] != "" then
      [i] + PairStartsFrom(ts, i + 2)
    else
      PairStartsFrom(ts, i + 1)
  }

  /** `pairs` are the pairs started at the line numbers `ps`, each at or after
      line `i`: two adjacent non-blank lines each, in file order without sharing
      lines. */
  ghost predicate PairsAt(ts: seq<string>, i: nat, ps: seq<nat>, pairs: seq<(string, string)>) {
    |ps| == |pairs|
    && (forall k :: 0 <= k < |ps| ==> i <= ps[k] && ps[k] + 1 < |ts|)
    && (forall k :: 0 <= k < |ps| ==> pairs[k] == (ts[ps[k]], ts[ps[k] + 1]))
    && (forall k :: 0 <= k < |ps| ==> pairs[k].0 != "" && pairs[k].1 != "")
    && (forall k :: 0 <= k < |ps| - 1 ==> ps[k] + 2 <= ps[k + 1])
  }

  /** A pair at line `i` in front of the pairs from line `i + 2` on. */
  lemma PairsAtCons(ts: seq<string>, i: nat, ps: seq<nat>, pairs: seq<(string, string)>)
    requires i + 1 < |ts| && ts[i] != "" && ts[i + 1] != ""
    requires PairsAt(ts, i + 2, ps, pairs)
    ensures PairsAt(ts, i, [i] + ps, [(ts[i], ts[i + 1])] + pairs)
  {
    var ps' := [i] + ps;
    var pairs' := [(ts[i], ts[i + 1])] + pairs;
    forall k | 0 <= k < |ps'| - 1
      ensures ps'[k] + 2 <= ps'[k + 1]
    {
      assert ps'[k + 1] == ps[k];
      if k > 0 {
        assert ps'[k] == ps[k - 1];
      }
    }
    forall k | 0 <= k < |ps'|
      ensures pairs'[k] == (ts[ps'[k]], ts[ps'[k] + 1])
    {
      if k > 0 {
        assert pairs'[k] == pairs[k - 1] && ps'[k] == ps[k - 1];
      }
    }
  }

  /** Pairs that start at or after line `i + 1` start at or after line `i`. */
  lemma PairsAtWiden(ts: seq<string>, i: nat, ps: seq<nat>, pairs: seq<(string, string)>)
    requires PairsAt(ts, i + 1, ps, pairs)
    ensures PairsAt(ts, i, ps, pairs)
  {
  }

  /** Each pair is two adjacent non-blank stripped lines, and the pairs come in
      file order without sharing lines. */
  lemma {:induction false} WordPairsInFileOrder(ts: seq<string>, i: nat)
    ensures PairsAt(ts, i, PairStartsFrom(ts, i), PairsFrom(ts, i))
    decreases |ts| - i
  {
    if i < |ts| {
      if ts[i] != "" && i + 1 < |ts| && ts[i + 1] != "" {
        WordPairsInFileOrder(ts, i + 2);
        PairsFromPair(ts, i);
        assert PairStartsFrom(ts, i) == [i] + PairStartsFrom(ts, i + 2);
        PairsAtCons(ts, i, PairStartsFrom(ts, i + 2), PairsFrom(ts, i + 2));
      } else {
        WordPairsInFileOrder(ts, i + 1);
        PairsFromSkip(ts, i);
        assert PairStartsFrom(ts, i) == PairStartsFrom(ts, i + 1);
        PairsAtWiden(ts, i, PairStartsFrom(ts, i + 1), PairsFrom(ts, i + 1));
      }
    }
  }

  /** When no line is blank, consecutive lines pair up and an odd last line is
      dropped. */
  lemma {:induction false} WordPairsNoBlank(ts: seq<string>, i: nat)
    requires i <= |ts|
    requires forall k :: 0 <= k < |ts| ==> ts[k] != ""
    ensures |PairsFrom(ts, i)| == (|ts| - i) / 2
    decreases |ts| - i
  {
    if i + 1 < |ts| {
      WordPairsNoBlank(ts, i + 2);
    }
  }

  // ----- ASS dialogue lines -----

  /** The text field split at the first literal `\N`: the part before it is the
      Chinese part and the rest the English part (all of it when there is no
      `\N`); override blocks are removed from both and both are stripped. */
  function SplitDialogueText(text: string): (string, string) {
    var parts := SplitOnce(text, "\\N");
    var chinese := if |parts| == 2 then Strip(parts[0]) else "";
    var english := if |parts| == 2 then parts[1] else text;
    (Strip(RemoveBraces(chinese)), Strip(RemoveBraces(english)))
  }

  lemma BraceFreeSlice(s: string, a: nat, b: nat)
    requires BraceFree(s) && a <= b <= |s|
    ensures BraceFree(s[a..b])
  {
    var t := s[a..b];
    forall i, j | 0 <= i < j < |t| && t[i] == '{' ensures t[j] != '}' {
      assert t[i] == s[a + i] && t[j] == s[a + j];
    }
  }

  lemma StrippedBraceFree(s: string)
    requires BraceFree(s)
    ensures BraceFree(Strip(s))
  {
    var i := LeadingSpaces(s);
    BraceFreeSlice(s, i, i + |Strip(s)|);
  }

  /** Both parts are stripped and free of override blocks. */
  lemma SplitDialogueTextClean(text: string)
    ensures var (chinese, english) := SplitDialogueText(text);
      BraceFree(chinese) && BraceFree(english) && Strip(chinese) == chinese && Strip(english) == english
  {
    var parts := SplitOnce(text, "\\N");
    var c0 := if |parts| == 2 then Strip(parts[0]) else "";
    var e0 := if |parts| == 2 then parts[1] else text;
    RemoveBracesBraceFree(c0);
    RemoveBracesBraceFree(e0);
    StrippedBraceFree(RemoveBraces(c0));
    StrippedBraceFree(RemoveBraces(e0));
    StripIdempotent(RemoveBraces(c0));
    StripIdempotent(RemoveBraces(e0));
  }

  /** Without `\N` the Chinese part is empty; with it the parts come from either
      side of the first `\N`. */
  lemma SplitDialogueTextParts(text: string)
    ensures var (chinese, english) := SplitDialogueText(text);
      (!Contains(text, "\\N") ==> chinese == "" && english == Strip(RemoveBraces(text)))
      && (Contains(text, "\\N") ==>
            exists before, after :: text == before + "\\N" + after && !Contains(before, "\\N")
              && chinese == Strip(RemoveBraces(Strip(before)))
              && english == Strip(RemoveBraces(after)))
  {
    if Contains(text, "\\N") {
      SplitDialogueTextAtFirstBreak(text);
    }
  }

  /** With `\N` in the text, the split is at its first occurrence. */
  lemma SplitDialogueTextAtFirstBreak(text: string)
    requires Contains(text, "\\N")
    ensures var parts := SplitOnce(text, "\\N");
      |parts| == 2 && text == parts[0] + "\\N" + parts[1] && !Contains(parts[0], "\\N")
  {
    var parts := SplitOnce(text, "\\N");
    var before := parts[0];
    assert "\\N"[..1] == "\\";
    assert !Contains(before + "\\", "\\N");
    if Contains(before, "\\N") {
      ContainsExtended(before, "\\", "\\N");
    }
    assert text == before + "\\N" + parts[1];
  }

  lemma StripIdempotent(s: string)
    ensures Strip(Strip(s)) == Strip(s)
  {
    if Strip(s) != "" {
      StripUnpadded(Strip(s));
    }
  }

  /** The dialogue of an ASS line, or `None` unless the line starts with
      `Dialogue:` and has at least ten comma-separated fields. At most nine splits
      are made, so the tenth field, the text, keeps its commas. */
  function AssDialogue(line: string): Option<Dialogue> {
    if !StartsWith(line, "Dialogue:") then None
    else
      var parts := SplitN(line, ',', 9);
      if |parts| < 10 then None
      else
        var (chinese, english) := SplitDialogueText(Strip(parts[9]));
        Some(Dialogue(Strip(parts[1]), Strip(parts[2]), chinese, english))
  }

  /** A line made of nine comma-free fields, the first starting with `Dialogue:`,
      followed by any text yields the stripped second and third fields as times
      and the split text, however many commas the text holds. */
  lemma AssDialogueOfFields(fields: seq<string>, text: string)
    requires |fields| == 9
    requires forall i :: 0 <= i < 9 ==> ',' !in fields[i]
    requires StartsWith(fields[0], "Dialogue:")
    ensures var (chinese, english) := SplitDialogueText(Strip(text));
      AssDialogue(Join(",", fields) + "," + text)
        == Some(Dialogue(Strip(fields[1]), Strip(fields[2]), chinese, english))
  {
    var line := Join(",", fields) + "," + text;
    SplitNJoin(fields, ',', text);
    assert Join(",", fields) == fields[0] + "," + Join(",", fields[1..]);
    assert line[..|"Dialogue:"|] == fields[0][..|"Dialogue:"|];
  }

  /** A dialogue lacking the `Dialogue:` prefix or the tenth field is skipped. */
  lemma AssDialogueRejects(line: string)
    requires !StartsWith(line, "Dialogue:") || ',' !in line
    ensures AssDialogue(line).None?
  {
    if StartsWith(line, "Dialogue:") {
      SplitNAbsent(line, ',', 9);
    }
  }

  predicate KeepForTiming(d: Dialogue) { d.english != "" }

  predicate KeepEither(d: Dialogue) { d.english != "" || d.chinese != "" }

  /** The values `parse` finds in the lines, in order, that `keep` accepts. */
  function Collected<T>(lines: seq<string>, parse: string -> Option<T>, keep: T -> bool): seq<T> {
    if lines == [] then []
    else
      var init := Collected(lines[..|lines| - 1], parse, keep);
      match parse(lines[|lines| - 1])
      case Some(d) => if keep(d) then init + [d] else init
      case None => init
  }

  /** The loop over the lines shared by both ASS readers. */
  method CollectLines<T>(lines: seq<string>, parse: string -> Option<T>, keep: T -> bool)
    returns (found: seq<T>)
    ensures found == Collected(lines, parse, keep)
  {
    found := [];
    for k := 0 to |lines|
      invariant found == Collected(lines[..k], parse, keep)
    {
      assert lines[..k + 1][..k] == lines[..k];
      var d := parse(lines[k]);
      if d.Some? && keep(d.value) {
        found := found + [d.value];
      }
    }
    assert lines[..|lines|] == lines;
  }

  /** A value is collected exactly when some line parses to it and `keep` accepts
      it. */
  lemma {:induction false} CollectedMembers<T>(lines: seq<string>, parse: string -> Option<T>, keep: T -> bool, d: T)
    ensures d in Collected(lines, parse, keep) <==>
      keep(d) && exists i :: 0 <= i < |lines| && parse(lines[i]) == Some(d)
  {
    if lines != [] {
      var init := lines[..|lines| - 1];
      CollectedMembers(init, parse, keep, d);
      if keep(d) && exists i :: 0 <= i < |lines| && parse(lines[i]) == Some(d) {
        var i :| 0 <= i < |lines| && parse(lines[i]) == Some(d);
        if i < |lines| - 1 {
          assert init[i] == lines[i];
        }
      }
      if exists i :: 0 <= i < |init| && parse(init[i]) == Some(d) {
        var i :| 0 <= i < |init| && parse(init[i]) == Some(d);
        assert lines[i] == init[i];
      }
    }
  }

  /** The dialogues of the lines, in order, that `keep` accepts. */
  function ParsedAss(lines: seq<string>, keep: Dialogue -> bool): seq<Dialogue> {
    Collected(lines, AssDialogue, keep)
  }

  method ParseAssFileForTiming(lines: seq<string>) returns (dialogues: seq<Dialogue>)
    ensures dialogues == ParsedAss(lines, KeepForTiming)
  {
    dialogues := CollectLines(lines, AssDialogue, KeepForTiming);
  }

  method ParseAssFile(lines: seq<string>) returns (dialogues: seq<Dialogue>)
    ensures dialogues == ParsedAss(lines, KeepEither)
  {
    dialogues := CollectLines(lines, AssDialogue, KeepEither);
  }

  /** A dialogue is in the result exactly when some line parses to it and `keep`
      accepts it. */
  lemma ParsedAssMembers(lines: seq<string>, keep: Dialogue -> bool, d: Dialogue)
    ensures d in ParsedAss(lines, keep) <==>
      keep(d) && exists i :: 0 <= i < |lines| && AssDialogue(lines[i]) == Some(d)
  {
    CollectedMembers(lines, AssDialogue, keep, d);
  }

  // ----- SRT blocks -----

  /** One block found by the SRT block pattern: the two time stamps as written and
      the text up to the next block. */
  datatype SrtBlock = SrtBlock(startTime: string, endTime: string, text: string)

  /** The stripped, non-blank lines, in order. */
  function NonBlankLines(lines: seq<string>): (r: seq<string>)
    ensures |r| <= |lines|
  {
    if lines == [] then []
    else
      var init := NonBlankLines(lines[..|lines| - 1]);
      var line := Strip(lines[|lines| - 1]);
      if line != "" then init + [line] else init
  }

  /** The lines of a block's text that the classification sees. */
  function SrtLines(text: string): seq<string> {
    NonBlankLines(Split(Strip(text), '\n'))
  }

  predicate HasCjk(s: string) {
    exists i :: 0 <= i < |s| && IsCjk(s[i])
  }

  /** Adding a line to a part: a space goes between it and a non-empty part. */
  function AppendLine(acc: string, line: string): string {
    if acc != "" then acc + " " + line else line
  }

  /** The Chinese and English parts the loop over a block's lines builds: tags
      are removed from each line, a line with a CJK ideograph goes to the Chinese
      part and every other line to the English part. */
  function ClassifyLines(lines: seq<string>): (string, string) {
    if lines == [] then ("", "")
    else
      var (chinese, english) := ClassifyLines(lines[..|lines| - 1]);
      var line := RemoveTags(lines[|lines| - 1]);
      if HasCjk(line) then (AppendLine(chinese, line), english)
      else (chinese, AppendLine(english, line))
  }

  method ClassifySrtLines(lines: seq<string>) returns (chinese: string, english: string)
    ensures (chinese, english) == ClassifyLines(lines)
  {
    chinese, english := "", "";
    for k := 0 to |lines|
      invariant (chinese, english) == ClassifyLines(lines[..k])
    {
      assert lines[..k + 1][..k] == lines[..k];
      var line := RemoveTags(lines[k]);
      if HasCjk(line) {
        if chinese != "" {
          chinese := chinese + " " + line;
        } else {
          chinese := line;
        }
      } else {
        if english != "" {
          english := english + " " + line;
        } else {
          english := line;
        }
      }
    }
    assert lines[..|lines|] == lines;
  }

  /** The tag-free lines of one kind, in order. */
  function LinesOfKind(lines: seq<string>, cjk: bool): seq<string> {
    if lines == [] then []
    else
      var init := LinesOfKind(lines[..|lines| - 1], cjk);
      var line := RemoveTags(lines[|lines| - 1]);
      if HasCjk(line) == cjk then init + [line] else init
  }

  /** The part built by appending lines one at a time. */
  function Appended(lines: seq<string>): string {
    if lines == [] then "" else AppendLine(Appended(lines[..|lines| - 1]), lines[|lines| - 1])
  }

  lemma {:induction false} ClassifyLinesByKind(lines: seq<string>)
    ensures ClassifyLines(lines) == (Appended(LinesOfKind(lines, true)), Appended(LinesOfKind(lines, false)))
  {
    if lines != [] {
      var init := lines[..|lines| - 1];
      ClassifyLinesByKind(init);
      var line := RemoveTags(lines[|lines| - 1]);
      var c := LinesOfKind(init, true);
      var e := LinesOfKind(init, false);
      if HasCjk(line) {
        assert (c + [line])[..|c|] == c;
      } else {
        assert (e + [line])[..|e|] == e;
      }
    }
  }

  /** Appending non-empty lines one at a time is joining them with one space. */
  lemma {:induction false} AppendedIsJoin(lines: seq<string>)
    requires forall i :: 0 <= i < |lines| ==> lines[i] != ""
    ensures Appended(lines) == Join(" ", lines)
  {
    if |lines| > 1 {
      var init := lines[..|lines| - 1];
      AppendedIsJoin(init);
      assert Join(" ", init) != "" by {
        assert init[0] != "";
        assert Join(" ", init) == init[0] + (if |init| == 1 then "" else " " + Join(" ", init[1..]));
      }
      JoinSnoc(" ", init, lines[|lines| - 1]);
      assert init + [lines[|lines| - 1]] == lines;
    }
  }

  lemma {:induction false} CjkLinesNonEmpty(lines: seq<string>)
    ensures forall i :: 0 <= i < |LinesOfKind(lines, true)| ==> HasCjk(LinesOfKind(lines, true)[i])
  {
    if lines != [] {
      CjkLinesNonEmpty(lines[..|lines| - 1]);
    }
  }

  /** The Chinese part is the tag-free Chinese lines joined by single spaces; so is
      the English part when no English line is empty once its tags are gone. */
  lemma ClassifyLinesJoins(lines: seq<string>)
    ensures ClassifyLines(lines).0 == Join(" ", LinesOfKind(lines, true))
    ensures (forall i :: 0 <= i < |LinesOfKind(lines, false)| ==> LinesOfKind(lines, false)[i] != "")
      ==> ClassifyLines(lines).1 == Join(" ", LinesOfKind(lines, false))
  {
    ClassifyLinesByKind(lines);
    CjkLinesNonEmpty(lines);
    var c := LinesOfKind(lines, true);
    forall i | 0 <= i < |c| ensures c[i] != "" {
      assert HasCjk(c[i]);
    }
    AppendedIsJoin(c);
    if forall i :: 0 <= i < |LinesOfKind(lines, false)| ==> LinesOfKind(lines, false)[i] != "" {
      AppendedIsJoin(LinesOfKind(lines, false));
    }
  }

  /** Exactly two pieces padded or cut: `f[:2]` when it has two characters or more,
      otherwise `f.ljust(2, '0')`. */
  function TwoDigitFraction(f: string): (r: string)
    ensures |r| == 2
    ensures |f| >= 2 ==> r == f[..2]
    ensures |f| < 2 ==> r[..|f|] == f && forall k :: |f| <= k < 2 ==> r[k] == '0'
  {
    if |f| >= 2 then f[..2] else f + seq(2 - |f|, _ => '0')
  }

  /** The seconds field with its fraction, if any, cut or padded to two digits;
      anything after a second `.` is dropped. */
  function ShortSeconds(seconds: string): string {
    if '.' in seconds then
      SplitHasSeparator(seconds, '.');
      var secParts := Split(seconds, '.');
      secParts[0] + "." + TwoDigitFraction(secParts[1])
    else seconds
  }

  /** `convert_srt_to_ass_time`: `,` becomes `.`, a time of three `:`-separated
      parts gets its hours printed as an integer and its fraction cut or padded to
      two digits, and any other input is returned as given. Hours that are not an
      integer literal raise `ValueError`. */
  function ConvertSrtToAssTime(srt: string): (r: Result<string>)
    ensures |Split(ReplaceChar(srt, ',', '.'), ':')| != 3 ==> r == Success(srt)
    ensures r.Failure? ==> r.error.ValueError?
  {
    var parts := Split(ReplaceChar(srt, ',', '.'), ':');
    if |parts| != 3 then Success(srt)
    else
      match PyInt(parts[0])
      case Failure(e) => Failure(e)
      case Success(hours) => Success(IntToString(hours) + ":" + parts[1] + ":" + ShortSeconds(parts[2]))
  }

  predicate TimeField(s: string) {
    s != "" && AllDigits(s)
  }

  lemma ShortSecondsOf(ss: string, frac: string)
    requires TimeField(ss) && TimeField(frac)
    ensures ShortSeconds(ss + "." + frac) == ss + "." + TwoDigitFraction(frac)
  {
    assert ss + "." + frac == ss + ['.'] + frac;
    SplitCons(ss, '.', frac);
    SplitAbsent(frac, '.');
  }

  lemma SplitTime(hh: string, mm: string, last: string)
    requires ':' !in hh && ':' !in mm && ':' !in last
    ensures Split(hh + ":" + mm + ":" + last, ':') == [hh, mm, last]
  {
    assert hh + ":" + mm + ":" + last == hh + [':'] + (mm + [':'] + last);
    SplitCons(hh, ':', mm + [':'] + last);
    SplitCons(mm, ':', last);
    SplitAbsent(last, ':');
  }

  /** An `HH:MM:SS,mmm` (or `HH:MM:SS.mmm`) time of digit fields becomes
      `H:MM:SS.cc`: the hours lose their leading zeros and the fraction keeps two
      digits. */
  lemma ConvertWellFormed(hh: string, mm: string, ss: string, sep: char, frac: string)
    requires TimeField(hh) && TimeField(mm) && TimeField(ss) && TimeField(frac)
    requires sep == ',' || sep == '.'
    ensures ConvertSrtToAssTime(hh + ":" + mm + ":" + ss + [sep] + frac)
      == Success(NatToString(DigitsValue(hh)) + ":" + mm + ":" + (ss + "." + TwoDigitFraction(frac)))
  {
    var srt := hh + ":" + mm + ":" + ss + [sep] + frac;
    ConvertSplit(hh, mm, ss, sep, frac);
    ConvertOfParts(srt, hh, mm, ss + "." + frac);
    ShortSecondsOf(ss, frac);
  }

  /** The pieces a well-formed time splits into once `,` became `.`. */
  lemma ConvertSplit(hh: string, mm: string, ss: string, sep: char, frac: string)
    requires TimeField(hh) && TimeField(mm) && TimeField(ss) && TimeField(frac)
    requires sep == ',' || sep == '.'
    ensures Split(ReplaceChar(hh + ":" + mm + ":" + ss + [sep] + frac, ',', '.'), ':')
      == [hh, mm, ss + "." + frac]
  {
    var last := ss + "." + frac;
    assert ReplaceChar(hh + ":" + mm + ":" + ss + [sep] + frac, ',', '.') == hh + ":" + mm + ":" + last;
    assert ':' !in last by {
      forall k | 0 <= k < |last| ensures last[k] != ':' {
        if k < |ss| { assert last[k] == ss[k]; }
        else if k > |ss| { assert last[k] == frac[k - |ss| - 1]; }
      }
    }
    SplitTime(hh, mm, last);
  }

  /** A time in three pieces whose hours are digits. */
  lemma ConvertOfParts(srt: string, hh: string, mm: string, last: string)
    requires Split(ReplaceChar(srt, ',', '.'), ':') == [hh, mm, last] && TimeField(hh)
    ensures ConvertSrtToAssTime(srt) == Success(NatToString(DigitsValue(hh)) + ":" + mm + ":" + ShortSeconds(last))
  {
    PyIntOfDigits(hh);
    var hours: int := DigitsValue(hh);
    assert IntToString(hours) == NatToString(DigitsValue(hh));
  }

  /** The documented example: `00:01:04,410` becomes `0:01:04.41`. */
  lemma ConvertExample()
    ensures ConvertSrtToAssTime("00:01:04,410") == Success("0:01:04.41")
  {
    ExampleInput();
    ExampleOutput();
  }

  lemma ExampleInput()
    ensures ConvertSrtToAssTime("00:01:04,410")
      == Success(NatToString(DigitsValue("00")) + ":" + "01" + ":" + ("04" + "." + TwoDigitFraction("410")))
  {
    assert TimeField("00") && TimeField("01") && TimeField("04") && TimeField("410");
    ConvertWellFormed("00", "01", "04", ',', "410");
    ExamplePieces();
  }

  lemma ExampleOutput()
    ensures NatToString(DigitsValue("00")) + ":" + "01" + ":" + ("04" + "." + TwoDigitFraction("410")) == "0:01:04.41"
  {
    assert DigitsValue("00") == 0 by {
      assert "00"[..1] == "0";
      assert "0"[..0] == "";
    }
    assert TwoDigitFraction("410") == "41";
    ExamplePieces();
  }

  lemma ExamplePieces()
    ensures "00" + ":" + "01" + ":" + "04" + [','] + "410" == "00:01:04,410"
    ensures "0" + ":" + "01" + ":" + ("04" + "." + "41") == "0:01:04.41"
  {
  }

  /** Both times of a block converted, the start first. */
  function SrtTimes(block: SrtBlock): Result<(string, string)> {
    match ConvertSrtToAssTime(block.startTime)
    case Failure(e) => Failure(e)
    case Success(start) =>
      match ConvertSrtToAssTime(block.endTime)
      case Failure(e) => Failure(e)
      case Success(end) => Success((start, end))
  }

  /** A dialogue from the classified lines, kept when either part is non-empty. */
  function KeptDialogue(start: string, end: string, parts: (string, string)): Option<Dialogue> {
    var (chinese, english) := parts;
    if english != "" || chinese != "" then Some(Dialogue(start, end, chinese, english)) else None
  }

  /** The dialogue of one SRT block: both times converted, the lines classified,
      and the block kept when either part is non-empty. */
  function SrtDialogue(block: SrtBlock): Result<Option<Dialogue>> {
    match SrtTimes(block)
    case Failure(e) => Failure(e)
    case Success(times) => Success(KeptDialogue(times.0, times.1, ClassifyLines(SrtLines(block.text))))
  }

  /** The dialogues of the blocks in order, or the error of the first block whose
      time does not convert. */
  function ParsedSrt(blocks: seq<SrtBlock>): Result<seq<Dialogue>> {
    if blocks == [] then Success([])
    else
      match ParsedSrt(blocks[..|blocks| - 1])
      case Failure(e) => Failure(e)
      case Success(init) =>
        match SrtDialogue(blocks[|blocks| - 1])
        case Failure(e) => Failure(e)
        case Success(None) => Success(init)
        case Success(Some(d)) => Success(init + [d])
  }

  /** Once a prefix of the blocks fails, the whole file fails with that error. */
  lemma {:induction false} ParsedSrtFailureSticks(blocks: seq<SrtBlock>, k: nat)
    requires k <= |blocks| && ParsedSrt(blocks[..k]).Failure?
    ensures ParsedSrt(blocks) == ParsedSrt(blocks[..k])
    decreases |blocks| - k
  {
    if k < |blocks| {
      assert blocks[..k + 1][..k] == blocks[..k];
      ParsedSrtFailureSticks(blocks, k + 1);
    } else {
      assert blocks[..k] == blocks;
    }
  }

  method ParseSrtFileForTiming(blocks: seq<SrtBlock>) returns (r: Result<seq<Dialogue>>)
    ensures r == ParsedSrt(blocks)
  {
    var dialogues := [];
    for k := 0 to |blocks|
      invariant ParsedSrt(blocks[..k]) == Success(dialogues)
    {
      assert blocks[..k + 1][..k] == blocks[..k];
      var d := SrtDialogue(blocks[k]);
      if d.Failure? {
        ParsedSrtFailureSticks(blocks, k + 1);
        return Failure(d.error);
      }
      if d.value.Some? {
        dialogues := dialogues + [d.value.value];
      }
    }
    assert blocks[..|blocks|] == blocks;
    r := Success(dialogues);
  }

  /** Every kept dialogue has a non-empty part, its Chinese part is the CJK lines
      joined with spaces, and it carries the times it was given. */
  lemma KeptDialogueSpec(start: string, end: string, lines: seq<string>)
    ensures var k := KeptDialogue(start, end, ClassifyLines(lines));
      (k.None? <==> ClassifyLines(lines) == ("", ""))
      && (k.Some? ==>
            k.value.start == start && k.value.end == end
            && (k.value.chinese != "" || k.value.english != "")
            && k.value.chinese == Join(" ", LinesOfKind(lines, true)))
  {
    ClassifyLinesJoins(lines);
  }

  // ----- matching a sentence -----

  /** The cleaned word a match must contain, or `None` when no word is given
      (`None` and `""` behave alike). */
  function WordClean(word: string): Option<string> {
    if word == "" then None else Some(Clean(Strip(Lower(word))))
  }

  /** The cleaned sentence and the cleaned English part contain one another, and
      the cleaned English part contains the cleaned word when there is one. */
  predicate DialogueMatches(sentenceClean: string, wordClean: Option<string>, d: Dialogue) {
    var englishClean := Clean(d.english);
    (Contains(englishClean, sentenceClean) || Contains(sentenceClean, englishClean))
    && (wordClean.Some? ==> Contains(englishClean, wordClean.value))
  }

  /** The first element satisfying `p`. */
  function FirstWhere<T>(xs: seq<T>, p: T -> bool): Option<T> {
    if xs == [] then None
    else if p(xs[0]) then Some(xs[0])
    else FirstWhere(xs[1..], p)
  }

  lemma {:induction false} FirstWhereSpec<T>(xs: seq<T>, p: T -> bool)
    ensures var r := FirstWhere(xs, p);
      (r.None? <==> forall i :: 0 <= i < |xs| ==> !p(xs[i]))
      && (r.Some? ==>
            exists i :: 0 <= i < |xs| && xs[i] == r.value && p(xs[i])
              && forall j :: 0 <= j < i ==> !p(xs[j]))
  {
    if xs != [] && !p(xs[0]) {
      var rest := xs[1..];
      FirstWhereSpec(rest, p);
      if FirstWhere(rest, p).Some? {
        var i :| 0 <= i < |rest| && rest[i] == FirstWhere(rest, p).value && p(rest[i])
          && forall j :: 0 <= j < i ==> !p(rest[j]);
        assert xs[i + 1] == rest[i];
        forall j | 0 <= j < i + 1 ensures !p(xs[j]) {
          if j > 0 { assert xs[j] == rest[j - 1]; }
        }
      }
      forall i | 1 <= i < |xs| ensures xs[i] == rest[i - 1] { }
    }
  }

  /** The first matching dialogue. */
  function FirstMatching(sentenceClean: string, wordClean: Option<string>, dialogues: seq<Dialogue>): Option<Dialogue> {
    FirstWhere(dialogues, d => DialogueMatches(sentenceClean, wordClean, d))
  }

  /** `None` exactly when nothing matches; otherwise the earliest match. */
  lemma FirstMatchingSpec(sentenceClean: string, wordClean: Option<string>, dialogues: seq<Dialogue>)
    ensures var r := FirstMatching(sentenceClean, wordClean, dialogues);
      (r.None? <==> forall i :: 0 <= i < |dialogues| ==> !DialogueMatches(sentenceClean, wordClean, dialogues[i]))
      && (r.Some? ==>
            exists i :: 0 <= i < |dialogues| && dialogues[i] == r.value
              && DialogueMatches(sentenceClean, wordClean, dialogues[i])
              && forall j :: 0 <= j < i ==> !DialogueMatches(sentenceClean, wordClean, dialogues[j]))
  {
    FirstWhereSpec(dialogues, d => DialogueMatches(sentenceClean, wordClean, d));
  }

  method FindMatchingDialogue(sentence: string, dialogues: seq<Dialogue>, word: string) returns (r: Option<Dialogue>)
    ensures r == FirstMatching(Clean(sentence), WordClean(word), dialogues)
  {
    var sentenceClean := Clean(sentence);
    var wordClean := WordClean(word);
    for k := 0 to |dialogues|
      invariant FirstMatching(sentenceClean, wordClean, dialogues) == FirstMatching(sentenceClean, wordClean, dialogues[k..])
    {
      assert dialogues[k..][0] == dialogues[k] && dialogues[k..][1..] == dialogues[k + 1..];
      if DialogueMatches(sentenceClean, wordClean, dialogues[k]) {
        return Some(dialogues[k]);
      }
    }
    return None;
  }

  // ----- dispatch on the file suffix -----

  /** The components of a POSIX path other than empty ones and `.`. */
  function PathParts(components: seq<string>): seq<string> {
    if components == [] then []
    else
      var init := PathParts(components[..|components| - 1]);
      var c := components[|components| - 1];
      if c == "" || c == "." then init else init + [c]
  }

  /** `Path(path).name`: the last component, or `""`. */
  function PathName(path: string): string {
    var parts := PathParts(Split(path, '/'));
    if parts == [] then "" else parts[|parts| - 1]
  }

  /** The index of the last `c` in `s`. */
  function LastIndexOf(s: string, c: char): (r: nat)
    requires c in s
    ensures r < |s| && s[r] == c && c !in s[r + 1..]
  {
    if s[|s| - 1] == c then |s| - 1
    else
      assert s[..|s| - 1][|s| - 1..] == [];
      var k := LastIndexOf(s[..|s| - 1], c);
      assert s[k + 1..] == s[..|s| - 1][k + 1..] + [s[|s| - 1]];
      k
  }

  /** `PurePath.suffix`: from the last `.` of the name, provided that dot is
      neither the first nor the last character. */
  function Suffix(name: string): (r: string)
    ensures r == "" || (|r| >= 2 && r[0] == '.' && '.' !in r[1..] && EndsWith(name, r) && |r| < |name|)
  {
    if '.' !in name then ""
    else
      var i := LastIndexOf(name, '.');
      if 0 < i < |name| - 1 then
        assert name[i..][1..] == name[i + 1..];
        name[i..]
      else ""
  }

  datatype Format = Srt | Ass

  /** The subtitle format the lower-cased suffix names, or `ValueError`. */
  function SubtitleFormat(path: string): (r: Result<Format>)
    ensures r == Success(Srt) <==> Lower(Suffix(PathName(path))) == ".srt"
    ensures r == Success(Ass) <==> Lower(Suffix(PathName(path))) == ".ass"
    ensures r.Failure? <==> Lower(Suffix(PathName(path))) !in {".srt", ".ass"}
    ensures r.Failure? ==> r.error.ValueError?
  {
    var ext := Lower(Suffix(PathName(path)));
    if ext == ".srt" then Success(Srt)
    else if ext == ".ass" then Success(Ass)
    else Failure(ValueError("不支持的字幕格式: " + ext + "，仅支持.ass和.srt"))
  }

  /** `parse_subtitle_file_for_timing`: SRT blocks or ASS lines with an English
      part, by the file's suffix. */
  method ParseSubtitleFileForTiming(path: string, lines: seq<string>, blocks: seq<SrtBlock>)
    returns (r: Result<seq<Dialogue>>)
    ensures SubtitleFormat(path) == Success(Srt) ==> r == ParsedSrt(blocks)
    ensures SubtitleFormat(path) == Success(Ass) ==> r == Success(ParsedAss(lines, KeepForTiming))
    ensures SubtitleFormat(path).Failure? ==> r == Failure(SubtitleFormat(path).error)
  {
    var format := SubtitleFormat(path);
    if format.Failure? {
      return Failure(format.error);
    }
    if format.value == Srt {
      r := ParseSrtFileForTiming(blocks);
    } else {
      var dialogues := ParseAssFileForTiming(lines);
      r := Success(dialogues);
    }
  }

  /** `parse_subtitle_file`: as above, except that ASS lines with only a Chinese
      part are kept too. */
  method ParseSubtitleFile(path: string, lines: seq<string>, blocks: seq<SrtBlock>)
    returns (r: Result<seq<Dialogue>>)
    ensures SubtitleFormat(path) == Success(Srt) ==> r == ParsedSrt(blocks)
    ensures SubtitleFormat(path) == Success(Ass) ==> r == Success(ParsedAss(lines, KeepEither))
    ensures SubtitleFormat(path).Failure? ==> r == Failure(SubtitleFormat(path).error)
  {
    var format := SubtitleFormat(path);
    if format.Failure? {
      return Failure(format.error);
    }
    if format.value == Srt {
      r := ParseSrtFileForTiming(blocks);
    } else {
      var dialogues := ParseAssFile(lines);
      r := Success(dialogues);
    }
  }
}
