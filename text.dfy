/** Python string primitives the modelled code relies on: the whitespace set of
    `str.isspace()` / `str.split()` / `str.strip()`, ASCII case mapping, prefix and
    substring search, `split`/`join`, `replace(old, new, 1)` and `html.escape`. */
module Text {
  import opened Wrappers

  /** The characters for which Python's `str.isspace()` holds; these are what
      `str.split()`, `str.strip()` and the regex class `\s` treat as whitespace. */
  predicate IsSpace(c: char) {
    c == ' ' || ('\U{9}' <= c <= '\U{d}') || ('\U{1c}' <= c <= '\U{1f}')
    || c == '\U{85}' || c == '\U{a0}' || c == '\U{1680}'
    || ('\U{2000}' <= c <= '\U{200a}') || c == '\U{2028}' || c == '\U{2029}'
    || c == '\U{202f}' || c == '\U{205f}' || c == '\U{3000}'
  }

  predicate NoSpace(s: string) {
    forall i :: 0 <= i < |s| ==> !IsSpace(s[i])
  }

  predicate AllSpace(s: string) {
    forall i :: 0 <= i < |s| ==> IsSpace(s[i])
  }

  predicate IsAsciiUpper(c: char) { 'A' <= c <= 'Z' }
  predicate IsAsciiLower(c: char) { 'a' <= c <= 'z' }
  predicate IsDigit(c: char) { '0' <= c <= '9' }

  /** Characters 0x4E00..0x9FFF, the range the subtitle parsers call Chinese. */
  predicate IsCjk(c: char) { '\U{4e00}' <= c <= '\U{9fff}' }

  /** `str.isalpha()` restricted to ASCII letters and the CJK ideographs. */
  predicate IsAlpha(c: char) { IsAsciiUpper(c) || IsAsciiLower(c) || IsCjk(c) }

  /** `str.isalnum()` restricted to the letters above and ASCII digits. */
  predicate IsAlnum(c: char) { IsAlpha(c) || IsDigit(c) }

  /** The regex class `\w`: alphanumerics and the underscore. */
  predicate IsWordChar(c: char) { IsAlnum(c) || c == '_' }

  function LowerChar(c: char): (r: char)
    ensures IsAsciiUpper(c) ==> r as int == c as int + 32
    ensures !IsAsciiUpper(c) ==> r == c
  {
    if IsAsciiUpper(c) then (c as int + 32) as char else c
  }

  function UpperChar(c: char): (r: char)
    ensures IsAsciiLower(c) ==> r as int == c as int - 32
    ensures !IsAsciiLower(c) ==> r == c
  {
    if IsAsciiLower(c) then (c as int - 32) as char else c
  }

  /** `str.lower()` on the ASCII range. */
  function Lower(s: string): (r: string)
    ensures |r| == |s|
    ensures forall i :: 0 <= i < |s| ==> r[i] == LowerChar(s[i])
  {
    seq(|s|, i requires 0 <= i < |s| => LowerChar(s[i]))
  }

  /** `str.capitalize()` on the ASCII range: first character upper, the rest lower. */
  function Capitalize(s: string): (r: string)
    ensures |r| == |s|
    ensures |s| > 0 ==> r[0] == UpperChar(s[0]) && r[1..] == Lower(s[1..])
  {
    if s == "" then "" else [UpperChar(s[0])] + Lower(s[1..])
  }

  predicate StartsWith(s: string, prefix: string) {
    prefix <= s
  }

  predicate EndsWith(s: string, suffix: string) {
    |suffix| <= |s| && s[|s| - |suffix|..] == suffix
  }

  /** `sub` occurs in `s` at index `i`. */
  predicate OccursAt(s: string, sub: string, i: int) {
    0 <= i && i + |sub| <= |s| && s[i..i + |sub|] == sub
  }

  /** `str.find`: the index of the first occurrence of `sub`, if any. */
  function Find(s: string, sub: string): (r: Option<nat>)
    ensures r.Some? ==> OccursAt(s, sub, r.value)
    ensures r.Some? ==> forall j :: 0 <= j < r.value ==> !OccursAt(s, sub, j)
    ensures r.None? ==> forall j :: !OccursAt(s, sub, j)
    decreases |s|
  {
    OccursAtStart(s, sub);
    if sub <= s then Some(0)
    else if |s| <= |sub| then None
    else
      var rest := Find(s[1..], sub);
      OccursShift(s, sub);
      if rest.Some? then Some(rest.value + 1) else None
  }

  lemma OccursAtStart(s: string, sub: string)
    ensures OccursAt(s, sub, 0) <==> sub <= s
  {
  }

  /** An occurrence after index 0 is an occurrence in the tail, one place earlier. */
  lemma OccursShift(s: string, sub: string)
    requires s != ""
    ensures forall j :: 0 < j ==> (OccursAt(s, sub, j) <==> OccursAt(s[1..], sub, j - 1))
  {
    forall j | 0 < j ensures OccursAt(s, sub, j) <==> OccursAt(s[1..], sub, j - 1) {
      if j + |sub| <= |s| {
        SliceShift(s, j, j + |sub|);
      }
    }
  }

  lemma SliceShift(s: string, a: nat, b: nat)
    requires 1 <= a <= b <= |s|
    ensures s[a..b] == s[1..][a - 1..b - 1]
  {
    var x := s[a..b];
    var y := s[1..][a - 1..b - 1];
    assert |x| == |y|;
    forall k | 0 <= k < |x| ensures x[k] == y[k] {
      assert x[k] == s[a + k];
    }
  }

  /** Python's `sub in s`. */
  predicate Contains(s: string, sub: string) {
    Find(s, sub).Some?
  }

  lemma ContainsAt(s: string, sub: string, i: int)
    requires OccursAt(s, sub, i)
    ensures Contains(s, sub)
  {
  }

  lemma ContainsExtended(a: string, b: string, sub: string)
    requires Contains(a, sub)
    ensures Contains(a + b, sub)
  {
    var j := Find(a, sub).value;
    assert (a + b)[j..j + |sub|] == a[j..j + |sub|];
    ContainsAt(a + b, sub, j);
  }

  lemma ContainsMiddle(a: string, b: string, c: string)
    ensures Contains(a + b + c, b)
  {
    assert (a + b + c)[|a|..|a| + |b|] == b;
    ContainsAt(a + b + c, b, |a|);
  }

  lemma ContainsPrepended(a: string, b: string, sub: string)
    requires Contains(b, sub)
    ensures Contains(a + b, sub)
  {
    var j := Find(b, sub).value;
    assert (a + b)[|a| + j..|a| + j + |sub|] == b[j..j + |sub|];
    ContainsAt(a + b, sub, |a| + j);
  }

  /** `str.replace(old, new, 1)`: only the first occurrence is replaced. */
  function ReplaceFirst(s: string, pattern: string, replacement: string): (r: string)
    ensures !Contains(s, pattern) ==> r == s
    ensures Contains(s, pattern) ==>
      var i := Find(s, pattern).value;
      r == s[..i] + replacement + s[i + |pattern|..]
  {
    match Find(s, pattern)
    case None => s
    case Some(i) => s[..i] + replacement + s[i + |pattern|..]
  }

  /** The number of leading whitespace characters. */
  function LeadingSpaces(s: string): (n: nat)
    ensures n <= |s|
    ensures AllSpace(s[..n])
    ensures n < |s| ==> !IsSpace(s[n])
  {
    if s == "" || !IsSpace(s[0]) then 0
    else
      var k := LeadingSpaces(s[1..]);
      assert s[..k + 1] == [s[0]] + s[1..][..k];
      k + 1
  }

  lemma AllSpaceSnoc(a: string, c: char)
    requires AllSpace(a) && IsSpace(c)
    ensures AllSpace(a + [c])
  {
    var r := a + [c];
    assert forall i :: 0 <= i < |a| ==> r[i] == a[i];
  }

  /** The number of trailing whitespace characters. */
  function TrailingSpaces(s: string): (n: nat)
    ensures n <= |s|
    ensures AllSpace(s[|s| - n..])
    ensures n < |s| ==> !IsSpace(s[|s| - n - 1])
  {
    if s == "" || !IsSpace(s[|s| - 1]) then 0
    else
      var t := s[..|s| - 1];
      var k := TrailingSpaces(t);
      assert s[|s| - (k + 1)..] == t[|t| - k..] + [s[|s| - 1]];
      AllSpaceSnoc(t[|t| - k..], s[|s| - 1]);
      assert k + 1 < |s| ==> s[|s| - (k + 1) - 1] == t[|t| - k - 1];
      k + 1
  }

  /** `str.strip()`: the infix left after removing leading and trailing whitespace. */
  function Strip(s: string): (r: string)
    ensures |r| <= |s|
    ensures r == "" || (!IsSpace(r[0]) && !IsSpace(r[|r| - 1]))
  {
    var i := LeadingSpaces(s);
    var j := |s| - TrailingSpaces(s);
    if i < j then s[i..j] else ""
  }

  /** The stripped string is the infix that starts after the leading whitespace
      and is followed only by whitespace (`StripSuffix`); it is empty exactly for
      an all-blank string (`StripEmpty`). */
  lemma StripInfix(s: string)
    ensures LeadingSpaces(s) + |Strip(s)| <= |s|
    ensures Strip(s) == s[LeadingSpaces(s)..LeadingSpaces(s) + |Strip(s)|]
  {
    var i := LeadingSpaces(s);
    if i < |s| {
      StripInner(s, i, TrailingSpaces(s));
    }
  }

  lemma StripSuffix(s: string)
    ensures LeadingSpaces(s) + |Strip(s)| <= |s|
    ensures AllSpace(s[LeadingSpaces(s) + |Strip(s)|..])
  {
    var i := LeadingSpaces(s);
    if i < |s| {
      StripInner(s, i, TrailingSpaces(s));
    } else {
      assert s[|s|..] == "";
    }
  }

  lemma StripEmpty(s: string)
    ensures Strip(s) == "" <==> AllSpace(s)
  {
    var i := LeadingSpaces(s);
    if i < |s| {
      StripInner(s, i, TrailingSpaces(s));
    } else {
      assert s[..i] == s;
    }
  }

  /** Some character is not whitespace: the leading and trailing runs do not meet. */
  lemma StripInner(s: string, i: nat, t: nat)
    requires i == LeadingSpaces(s) && t == TrailingSpaces(s) && i < |s|
    ensures i < |s| - t && Strip(s) == s[i..|s| - t] && |Strip(s)| == |s| - t - i
    ensures AllSpace(s[|s| - t..]) && !AllSpace(s)
  {
    var tail := s[|s| - t..];
    forall k | |s| - t <= k < |s| ensures IsSpace(s[k]) {
      assert s[k] == tail[k - (|s| - t)];
    }
    assert !IsSpace(s[i]);
  }

  /** `sep.join(parts)`. */
  function Join(sep: string, parts: seq<string>): (r: string)
    ensures parts == [] ==> r == ""
    ensures |parts| == 1 ==> r == parts[0]
  {
    if parts == [] then ""
    else if |parts| == 1 then parts[0]
    else parts[0] + sep + Join(sep, parts[1..])
  }

  lemma {:induction false} JoinSnoc(sep: string, xs: seq<string>, x: string)
    requires xs != []
    ensures Join(sep, xs + [x]) == Join(sep, xs) + sep + x
  {
    if |xs| > 1 {
      assert (xs + [x])[1..] == xs[1..] + [x];
      JoinSnoc(sep, xs[1..], x);
    } else {
      assert xs + [x] == [xs[0], x];
      assert [xs[0], x][1..] == [x];
    }
  }

  /** Joining the first `n` pieces and the rest separately, then joining the two. */
  lemma {:induction false} JoinAt(sep: string, xs: seq<string>, n: nat)
    requires 0 < n < |xs|
    ensures Join(sep, xs[..n]) + sep + Join(sep, xs[n..]) == Join(sep, xs)
  {
    if n > 1 {
      JoinAt(sep, xs[1..], n - 1);
      assert xs[..n][1..] == xs[1..][..n - 1];
      assert xs[1..][n - 1..] == xs[n..];
    }
  }

  /** The index of the first `c` in `s`, if any: `str.find` for one character. */
  function CharIndex(s: string, c: char): (r: Option<nat>)
    ensures r.None? ==> c !in s
    ensures r.Some? ==> r.value < |s| && s[r.value] == c && c !in s[..r.value]
  {
    if s == "" then None
    else if s[0] == c then Some(0)
    else
      match CharIndex(s[1..], c)
      case None => None
      case Some(i) =>
        assert s[..i + 1] == [s[0]] + s[1..][..i];
        Some(i + 1)
  }

  lemma CharIndexAt(s: string, c: char, i: nat)
    requires i < |s| && s[i] == c && c !in s[..i]
    ensures CharIndex(s, c) == Some(i)
  {
  }

  lemma JoinCons(sep: string, a: string, rest: seq<string>)
    requires rest != []
    ensures Join(sep, [a] + rest) == a + sep + Join(sep, rest)
  {
    assert ([a] + rest)[1..] == rest;
  }

  lemma Reassemble(s: string, i: nat)
    requires i < |s|
    ensures s[..i] + [s[i]] + s[i + 1..] == s
  {
  }

  /** `s.split(c)` for a one-character separator: the maximal separator-free pieces. */
  function Split(s: string, c: char): (r: seq<string>)
    ensures |r| >= 1
    ensures Join([c], r) == s
    decreases |s|
  {
    match CharIndex(s, c)
    case None => [s]
    case Some(i) =>
      var rest := Split(s[i + 1..], c);
      JoinCons([c], s[..i], rest);
      Reassemble(s, i);
      [s[..i]] + rest
  }

  /** No piece contains the separator. */
  lemma {:induction false} SplitPieces(s: string, c: char)
    ensures forall i :: 0 <= i < |Split(s, c)| ==> c !in Split(s, c)[i]
    decreases |s|
  {
    match CharIndex(s, c)
    case None =>
    case Some(i) =>
      var rest := Split(s[i + 1..], c);
      SplitPieces(s[i + 1..], c);
      var r := [s[..i]] + rest;
      assert Split(s, c) == r;
      assert forall k :: 1 <= k < |r| ==> r[k] == rest[k - 1];
  }

  /** `s.split(c, n)`: at most `n` splits are made, so past the `n`th separator
      the rest of the string, separators included, is the last piece. */
  function SplitN(s: string, c: char, n: nat): (r: seq<string>)
    ensures 1 <= |r| <= n + 1
  {
    var all := Split(s, c);
    if |all| <= n + 1 then all else all[..n] + [Join([c], all[n..])]
  }

  lemma SplitNAbsent(s: string, c: char, n: nat)
    requires c !in s
    ensures SplitN(s, c, n) == [s]
  {
  }

  /** All pieces but the last are separator-free, and so is the last unless all
      `n` splits were made. */
  lemma SplitNPieces(s: string, c: char, n: nat)
    ensures var r := SplitN(s, c, n);
      (forall i :: 0 <= i < |r| - 1 ==> c !in r[i]) && (|r| <= n ==> c !in r[|r| - 1])
  {
    var all := Split(s, c);
    SplitPieces(s, c);
    if |all| > n + 1 {
      var r := SplitN(s, c, n);
      assert forall i :: 0 <= i < n ==> r[i] == all[i];
    }
  }

  /** The pieces joined with the separator give back `s`. */
  lemma SplitNJoinsBack(s: string, c: char, n: nat)
    ensures Join([c], SplitN(s, c, n)) == s
  {
    var all := Split(s, c);
    if |all| > n + 1 {
      if n == 0 {
        assert all[0..] == all;
      } else {
        JoinAt([c], all, n);
        JoinSnoc([c], all[..n], Join([c], all[n..]));
      }
    }
  }

  /** `s.split(sep, 1)` for a separator string: the text before the first occurrence
      and the text after it, or `[s]` when `sep` does not occur. */
  function SplitOnce(s: string, sep: string): (r: seq<string>)
    ensures !Contains(s, sep) ==> r == [s]
    ensures Contains(s, sep) ==> |r| == 2 && r[0] + sep + r[1] == s && !Contains(r[0] + sep[..|sep| - 1], sep)
    requires sep != ""
  {
    match Find(s, sep)
    case None => [s]
    case Some(i) =>
      SplitAround(s, sep, i);
      PrefixFree(s, sep, i + |sep| - 1);
      [s[..i], s[i + |sep|..]]
  }

  lemma SplitAround(s: string, sep: string, i: nat)
    requires sep != "" && OccursAt(s, sep, i)
    ensures s[..i] + sep + s[i + |sep|..] == s
    ensures s[..i] + sep[..|sep| - 1] == s[..i + |sep| - 1]
  {
    assert s == s[..i] + s[i..i + |sep|] + s[i + |sep|..];
  }

  /** A prefix ending before the end of the first occurrence has no occurrence. */
  lemma PrefixFree(s: string, sub: string, m: nat)
    requires m <= |s|
    requires forall j :: 0 <= j && j + |sub| <= m ==> !OccursAt(s, sub, j)
    ensures !Contains(s[..m], sub)
  {
    var h := s[..m];
    if Contains(h, sub) {
      var j := Find(h, sub).value;
      assert h[j..j + |sub|] == s[j..j + |sub|];
      assert OccursAt(s, sub, j);
    }
  }

  /** The length of the leading run of non-whitespace characters. */
  function WordLength(s: string): (n: nat)
    ensures n <= |s|
    ensures NoSpace(s[..n])
    ensures n < |s| ==> IsSpace(s[n])
  {
    if s == "" || IsSpace(s[0]) then 0
    else
      var k := WordLength(s[1..]);
      assert s[..k + 1] == [s[0]] + s[1..][..k];
      k + 1
  }

  /** `str.split()` with no argument: the maximal runs of non-whitespace characters. */
  function Words(s: string): (ws: seq<string>)
    ensures forall i :: 0 <= i < |ws| ==> ws[i] != "" && NoSpace(ws[i])
    decreases |s|
  {
    var t := s[LeadingSpaces(s)..];
    if t == "" then []
    else
      var k := WordLength(t);
      [t[..k]] + Words(t[k..])
  }

  /** `' '.join(s.split())`: whitespace runs collapsed to one space, ends trimmed. */
  function Collapse(s: string): string {
    Join(" ", Words(s))
  }

  /** The shape of a collapsed string: no whitespace at either end, and every
      whitespace character inside it is a single ASCII space between two
      non-whitespace characters. */
  predicate Collapsed(r: string) {
    forall i :: 0 <= i < |r| && IsSpace(r[i]) ==>
      r[i] == ' ' && 0 < i < |r| - 1 && !IsSpace(r[i - 1]) && !IsSpace(r[i + 1])
  }

  lemma {:induction false} JoinedWordsCollapsed(ws: seq<string>)
    requires forall i :: 0 <= i < |ws| ==> ws[i] != "" && NoSpace(ws[i])
    ensures Collapsed(Join(" ", ws))
    ensures Join(" ", ws) != "" ==> !IsSpace(Join(" ", ws)[0])
    ensures ws != [] ==> Join(" ", ws) != ""
  {
    if |ws| > 1 {
      var rest := Join(" ", ws[1..]);
      JoinedWordsCollapsed(ws[1..]);
      var r := ws[0] + " " + rest;
      assert r == Join(" ", ws);
      forall i | 0 <= i < |r| && IsSpace(r[i])
        ensures r[i] == ' ' && 0 < i < |r| - 1 && !IsSpace(r[i - 1]) && !IsSpace(r[i + 1])
      {
        if i > |ws[0]| {
          assert r[i] == rest[i - |ws[0]| - 1];
          if i - 1 > |ws[0]| {
            assert r[i - 1] == rest[i - 1 - |ws[0]| - 1];
          }
        }
      }
    }
  }

  lemma {:induction false} WordsOfJoined(ws: seq<string>)
    requires forall i :: 0 <= i < |ws| ==> ws[i] != "" && NoSpace(ws[i])
    ensures Words(Join(" ", ws)) == ws
  {
    if ws == [] {
    } else if |ws| == 1 {
      WordsOfWordThen(ws[0], "");
      assert ws[0] + "" == ws[0];
    } else {
      var rest := Join(" ", ws[1..]);
      JoinedWordsCollapsed(ws[1..]);
      WordsOfJoined(ws[1..]);
      WordsOfWordSpace(ws[0], rest, ws[1..]);
      assert Join(" ", ws) == ws[0] + " " + rest;
      assert [ws[0]] + ws[1..] == ws;
    }
  }

  lemma WordsOfWordSpace(w: string, rest: string, tail: seq<string>)
    requires w != "" && NoSpace(w)
    requires rest != "" && !IsSpace(rest[0]) && Words(rest) == tail
    ensures Words(w + " " + rest) == [w] + tail
  {
    WordsOfWordThen(w, " " + rest);
    assert (" " + rest)[1..] == rest;
    assert w + " " + rest == w + (" " + rest);
  }

  /** A word followed by nothing or by whitespace is the first word. */
  lemma WordsOfWordThen(w: string, rest: string)
    requires w != "" && NoSpace(w)
    requires rest == "" || (IsSpace(rest[0]) && (|rest| == 1 || !IsSpace(rest[1])))
    ensures Words(w + rest) == [w] + Words(if rest == "" then "" else rest[1..])
  {
    var s := w + rest;
    assert LeadingSpaces(s) == 0 by { assert s[0] == w[0]; }
    assert s[..|w|] == w;
    WordLengthOf(s, |w|);
    assert s[|w|..] == rest;
    if rest != "" {
      if |rest| == 1 {
        assert LeadingSpaces(rest) == 1;
        assert rest[1..] == "";
      } else {
        assert LeadingSpaces(rest[1..]) == 0;
        assert LeadingSpaces(rest) == 1 by {
          assert rest[1..][0] == rest[1];
        }
      }
      assert rest[1..][LeadingSpaces(rest[1..])..] == rest[LeadingSpaces(rest)..];
    }
  }

  lemma {:induction false} WordLengthOf(s: string, n: nat)
    requires n <= |s| && NoSpace(s[..n]) && (n < |s| ==> IsSpace(s[n]))
    ensures WordLength(s) == n
  {
    if n > 0 {
      assert s[0] == s[..n][0];
      assert s[1..][..n - 1] == s[..n][1..];
      WordLengthOf(s[1..], n - 1);
    }
  }

  /** The whitespace collapse yields a collapsed string, and collapsing it again
      changes nothing. */
  lemma CollapseProperties(s: string)
    ensures Collapsed(Collapse(s))
    ensures Collapse(s) == "" || (!IsSpace(Collapse(s)[0]) && !IsSpace(Collapse(s)[|Collapse(s)| - 1]))
    ensures Collapse(Collapse(s)) == Collapse(s)
  {
    var ws := Words(s);
    JoinedWordsCollapsed(ws);
    WordsOfJoined(ws);
    var r := Collapse(s);
    if r != "" && IsSpace(r[|r| - 1]) {
      assert false;
    }
  }

  /** One character of `html.escape(s, quote=True)`. */
  function EscapeChar(c: char): string {
    if c == '&' then "&amp;"
    else if c == '<' then "&lt;"
    else if c == '>' then "&gt;"
    else if c == '"' then "&quot;"
    else if c == '\'' then "&#x27;"
    else [c]
  }

  predicate MarkupFree(s: string) {
    forall i :: 0 <= i < |s| ==> s[i] != '<' && s[i] != '>' && s[i] != '"' && s[i] != '\''
  }

  /** `html.escape(s)`, character by character; it is empty exactly when the
      input is. */
  function HtmlEscape(s: string): (r: string)
    ensures |r| >= |s|
    ensures r == "" <==> s == ""
  {
    if s == "" then "" else EscapeChar(s[0]) + HtmlEscape(s[1..])
  }

  lemma MarkupFreeConcat(a: string, b: string)
    requires MarkupFree(a) && MarkupFree(b)
    ensures MarkupFree(a + b)
  {
    forall i | |a| <= i < |a + b| ensures (a + b)[i] == b[i - |a|] { }
  }

  /** The escaped text never contains a markup-significant character. */
  lemma {:induction false} HtmlEscapeMarkupFree(s: string)
    ensures MarkupFree(HtmlEscape(s))
  {
    if s != "" {
      HtmlEscapeMarkupFree(s[1..]);
      MarkupFreeConcat(EscapeChar(s[0]), HtmlEscape(s[1..]));
    }
  }

  lemma {:induction false} HtmlEscapeConcat(a: string, b: string)
    ensures HtmlEscape(a + b) == HtmlEscape(a) + HtmlEscape(b)
  {
    if a != "" {
      assert (a + b)[0] == a[0];
      assert (a + b)[1..] == a[1..] + b;
      HtmlEscapeConcat(a[1..], b);
      assert HtmlEscape(a + b) == EscapeChar(a[0]) + (HtmlEscape(a[1..]) + HtmlEscape(b));
    } else {
      assert a + b == b;
    }
  }

  /** Text without `&`, `<`, `>`, `"` or `'` is left unchanged by `html.escape`. */
  lemma {:induction false} HtmlEscapePlain(s: string)
    requires forall i :: 0 <= i < |s| ==> s[i] !in "&<>\"'"
    ensures HtmlEscape(s) == s
  {
    if s != "" {
      HtmlEscapePlain(s[1..]);
    }
  }

  /** `s.replace(a, b)` for one-character arguments. */
  function ReplaceChar(s: string, a: char, b: char): (r: string)
    ensures |r| == |s|
    ensures forall i :: 0 <= i < |s| ==> r[i] == (if s[i] == a then b else s[i])
  {
    seq(|s|, i requires 0 <= i < |s| => if s[i] == a then b else s[i])
  }

  lemma ReplaceCharAbsent(s: string, a: char, b: char)
    requires a !in s
    ensures ReplaceChar(s, a, b) == s
  {
  }

  /** Splitting a string that contains the separator yields at least two pieces. */
  lemma SplitHasSeparator(s: string, c: char)
    requires c in s
    ensures |Split(s, c)| >= 2
  {
    SplitPieces(s, c);
  }

  lemma SplitAbsent(s: string, c: char)
    requires c !in s
    ensures Split(s, c) == [s]
  {
  }

  /** A separator-free head is the first piece. */
  lemma {:induction false} SplitCons(a: string, c: char, b: string)
    requires c !in a
    ensures Split(a + [c] + b, c) == [a] + Split(b, c)
  {
    var s := a + [c] + b;
    assert s[..|a|] == a && s[|a| + 1..] == b;
    CharIndexAt(s, c, |a|);
  }

  lemma SplitNCons(a: string, c: char, b: string, n: nat)
    requires c !in a && n >= 1
    ensures SplitN(a + [c] + b, c, n) == [a] + SplitN(b, c, n - 1)
  {
    SplitCons(a, c, b);
    if |Split(b, c)| + 1 > n + 1 {
      CutAfterHead(a, Split(b, c), n, [c]);
    }
  }

  lemma CutAfterHead(a: string, rest: seq<string>, n: nat, sep: string)
    requires 1 <= n < |rest| + 1
    ensures ([a] + rest)[..n] + [Join(sep, ([a] + rest)[n..])]
         == [a] + (rest[..n - 1] + [Join(sep, rest[n - 1..])])
  {
    assert ([a] + rest)[..n] == [a] + rest[..n - 1];
    assert ([a] + rest)[n..] == rest[n - 1..];
  }

  /** `c.join(fields) + c + rest` split at most `|fields|` times gives back the
      fields and the untouched rest, whatever separators the rest contains. */
  lemma {:induction false} SplitNJoin(fields: seq<string>, c: char, rest: string)
    requires fields != []
    requires forall i :: 0 <= i < |fields| ==> c !in fields[i]
    ensures SplitN(Join([c], fields) + [c] + rest, c, |fields|) == fields + [rest]
  {
    SplitJoined(fields, c, rest);
    var tail := Split(rest, c);
    var all := fields + tail;
    if |tail| == 1 {
      assert tail == [rest];
    } else {
      assert all[..|fields|] == fields;
      assert all[|fields|..] == tail;
    }
  }

  /** Splitting separator-free fields joined with the separator, followed by the
      separator and more text, gives the fields and then the pieces of that text. */
  lemma {:induction false} SplitJoined(fields: seq<string>, c: char, rest: string)
    requires fields != []
    requires forall i :: 0 <= i < |fields| ==> c !in fields[i]
    ensures Split(Join([c], fields) + [c] + rest, c) == fields + Split(rest, c)
  {
    if |fields| == 1 {
      SplitCons(fields[0], c, rest);
    } else {
      var tail := Join([c], fields[1..]) + [c] + rest;
      JoinHeadTail(fields, [c], rest);
      SplitCons(fields[0], c, tail);
      SplitJoined(fields[1..], c, rest);
      ConsAppend(fields, Split(rest, c));
    }
  }

  lemma ConsAppend<T>(xs: seq<T>, ys: seq<T>)
    requires xs != []
    ensures [xs[0]] + (xs[1..] + ys) == xs + ys
  {
    assert xs == [xs[0]] + xs[1..];
  }

  lemma JoinHeadTail(fields: seq<string>, sep: string, rest: string)
    requires |fields| >= 2
    ensures Join(sep, fields) + sep + rest == fields[0] + sep + (Join(sep, fields[1..]) + sep + rest)
  {
  }

  function DigitChar(d: nat): (c: char)
    requires d < 10
    ensures IsDigit(c)
  {
    ('0' as int + d) as char
  }

  predicate AllDigits(s: string) {
    forall i :: 0 <= i < |s| ==> IsDigit(s[i])
  }

  /** The value of a string of ASCII digits read in base 10. */
  function DigitsValue(s: string): nat
    requires AllDigits(s)
  {
    if s == "" then 0 else DigitsValue(s[..|s| - 1]) * 10 + (s[|s| - 1] as int - '0' as int)
  }

  /** `str(n)` for a natural number: its decimal digits, without leading zeros. */
  function NatToString(n: nat): (r: string)
    ensures r != "" && AllDigits(r)
    ensures |r| > 1 ==> r[0] != '0'
  {
    if n < 10 then [DigitChar(n)] else NatToString(n / 10) + [DigitChar(n % 10)]
  }

  /** `str(i)` for an integer. */
  function IntToString(i: int): (r: string)
    ensures r != ""
  {
    if i < 0 then "-" + NatToString(-i) else NatToString(i)
  }

  lemma {:induction false} DigitsValueOfNatToString(n: nat)
    ensures DigitsValue(NatToString(n)) == n
  {
    if n >= 10 {
      DigitsValueOfNatToString(n / 10);
      var r := NatToString(n);
      assert r[..|r| - 1] == NatToString(n / 10);
    }
  }

  /** The integer literal syntax after the optional sign: digits, with single
      underscores allowed between digits. */
  predicate IntLiteral(s: string) {
    s != "" && IsDigit(s[0]) && IsDigit(s[|s| - 1])
    && (forall i :: 0 <= i < |s| ==> IsDigit(s[i]) || s[i] == '_')
    && (forall i :: 0 <= i < |s| - 1 ==> !(s[i] == '_' && s[i + 1] == '_'))
  }

  function RemoveUnderscores(s: string): (r: string)
    requires forall i :: 0 <= i < |s| ==> IsDigit(s[i]) || s[i] == '_'
    ensures AllDigits(r)
  {
    if s == "" then "" else (if s[0] == '_' then "" else [s[0]]) + RemoveUnderscores(s[1..])
  }

  lemma {:induction false} RemoveUnderscoresDigits(s: string)
    requires AllDigits(s)
    ensures RemoveUnderscores(s) == s
  {
    if s != "" {
      RemoveUnderscoresDigits(s[1..]);
    }
  }

  /** Python's `int(s)` in base 10: surrounding whitespace is ignored, one sign
      is allowed, and anything else raises `ValueError`. */
  function PyInt(s: string): (r: Result<int>)
    ensures r.Failure? ==> r.error.ValueError?
  {
    SignedLiteral(Strip(s))
  }

  /** The stripped text read as an optionally signed literal. */
  function SignedLiteral(t: string): (r: Result<int>)
    ensures r.Failure? ==> r.error.ValueError?
  {
    var body := if t != "" && (t[0] == '-' || t[0] == '+') then t[1..] else t;
    if IntLiteral(body) then
      var v: int := DigitsValue(RemoveUnderscores(body));
      Success(if t[0] == '-' then -v else v)
    else
      Failure(ValueError("invalid literal for int() with base 10"))
  }

  lemma StripUnpadded(s: string)
    requires s != "" && !IsSpace(s[0]) && !IsSpace(s[|s| - 1])
    ensures Strip(s) == s
  {
    assert LeadingSpaces(s) == 0;
    assert TrailingSpaces(s) == 0;
  }

  lemma DigitsLiteral(d: string)
    requires d != "" && AllDigits(d)
    ensures IntLiteral(d)
  {
  }

  /** The value `int` reads from a literal body once the sign is settled. */
  lemma LiteralValue(d: string)
    requires d != "" && AllDigits(d)
    ensures IntLiteral(d) && DigitsValue(RemoveUnderscores(d)) == DigitsValue(d)
  {
    DigitsLiteral(d);
    RemoveUnderscoresDigits(d);
  }

  /** A string of ASCII digits parses to its decimal value. */
  lemma PyIntOfDigits(s: string)
    requires s != "" && AllDigits(s)
    ensures PyInt(s) == Success(DigitsValue(s) as int)
  {
    StripUnpadded(s);
    UnsignedLiteral(s);
  }

  lemma UnsignedLiteral(d: string)
    requires d != "" && AllDigits(d)
    ensures SignedLiteral(d) == Success(DigitsValue(d) as int)
  {
    assert IsDigit(d[0]);
    LiteralValue(d);
  }

  /** A minus sign followed by ASCII digits parses to the negated value. */
  lemma PyIntOfNegative(d: string, v: int)
    requires d != "" && AllDigits(d) && DigitsValue(d) == v
    ensures PyInt("-" + d) == Success(-v)
  {
    var r := "-" + d;
    assert r[0] == '-' && r[|r| - 1] == d[|d| - 1];
    StripUnpadded(r);
    NegativeLiteral(d, v);
  }

  lemma NegativeLiteral(d: string, v: int)
    requires d != "" && AllDigits(d) && DigitsValue(d) == v
    ensures SignedLiteral("-" + d) == Success(-v)
  {
    SignedBody('-', d);
    LiteralValue(d);
  }

  lemma SignedBody(sign: char, d: string)
    ensures ([sign] + d)[0] == sign && ([sign] + d)[1..] == d
  {
  }

  /** `int(str(i)) == i`. */
  lemma PyIntOfIntToString(i: int)
    ensures PyInt(IntToString(i)) == Success(i)
  {
    if i < 0 {
      PyIntOfNegativeString(i);
    } else {
      PyIntOfNatString(i);
    }
  }

  lemma PyIntOfNegativeString(i: int)
    requires i < 0
    ensures PyInt(IntToString(i)) == Success(i)
  {
    DigitsValueOfNatToString(-i);
    PyIntOfNegative(NatToString(-i), -i);
  }

  lemma PyIntOfNatString(i: int)
    requires i >= 0
    ensures PyInt(IntToString(i)) == Success(i)
  {
    var d := NatToString(i);
    assert IntToString(i) == d;
    PyIntOfDigits(d);
    DigitsValueOfNatToString(i);
  }

  /** `str` is injective on integers. */
  lemma IntToStringInjective(i: int, j: int)
    requires IntToString(i) == IntToString(j)
    ensures i == j
  {
    PyIntOfIntToString(i);
    PyIntOfIntToString(j);
  }
}
