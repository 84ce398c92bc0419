/** The regular-expression substitutions used by the subtitle parsers and the card
    builders, each written out as the left-to-right scan `re.sub` performs for
    that particular pattern. */
module Patterns {
  import opened Text

  /** The index of the first `c` in `s`. */
  function IndexOf(s: string, c: char): (r: nat)
    requires c in s
    ensures r < |s| && s[r] == c && c !in s[..r]
  {
    if s[0] == c then 0
    else
      var k := IndexOf(s[1..], c);
      assert s[..k + 1] == [s[0]] + s[1..][..k];
      k + 1
  }

  // ----- `{...}` override blocks -----

  /** `re.sub(r'\{[^}]*\}', '', s)`: a `{` with a later `}` opens a block that runs
      to the first such `}`, and the block is deleted; a `{` with no later `}` is
      kept, and so is everything outside blocks. */
  function RemoveBraces(s: string): (r: string)
    ensures |r| <= |s|
    ensures forall k :: 0 <= k < |r| ==> r[k] in s
    decreases |s|
  {
    if s == "" then ""
    else if s[0] == '{' && '}' in s[1..] then
      RemoveBraces(s[IndexOf(s[1..], '}') + 2..])
    else
      [s[0]] + RemoveBraces(s[1..])
  }

  /** No `{` is followed, anywhere later, by a `}`: the pattern has no match. */
  predicate BraceFree(s: string) {
    forall i, j :: 0 <= i < j < |s| && s[i] == '{' ==> s[j] != '}'
  }

  /** After the substitution no block is left. */
  lemma {:induction false} RemoveBracesBraceFree(s: string)
    ensures BraceFree(RemoveBraces(s))
  {
    if s == "" {
    } else if s[0] == '{' && '}' in s[1..] {
      RemoveBracesBraceFree(s[IndexOf(s[1..], '}') + 2..]);
    } else {
      var rest := RemoveBraces(s[1..]);
      RemoveBracesBraceFree(s[1..]);
      var r := [s[0]] + rest;
      forall i, j | 0 <= i < j < |r| && r[i] == '{' ensures r[j] != '}' {
        assert r[j] == rest[j - 1];
        if i > 0 {
          assert r[i] == rest[i - 1];
        }
      }
    }
  }

  /** A string without blocks is left unchanged. */
  lemma {:induction false} RemoveBracesFixed(s: string)
    requires BraceFree(s)
    ensures RemoveBraces(s) == s
  {
    if s != "" {
      if s[0] == '{' {
        forall k | 0 <= k < |s| - 1 ensures s[1..][k] != '}' {
          assert s[1..][k] == s[k + 1];
        }
      }
      assert BraceFree(s[1..]) by {
        forall i, j | 0 <= i < j < |s| - 1 && s[1..][i] == '{' ensures s[1..][j] != '}' {
          assert s[1..][i] == s[i + 1] && s[1..][j] == s[j + 1];
        }
      }
      RemoveBracesFixed(s[1..]);
    }
  }

  lemma RemoveBracesIdempotent(s: string)
    ensures RemoveBraces(RemoveBraces(s)) == RemoveBraces(s)
  {
    RemoveBracesBraceFree(s);
    RemoveBracesFixed(RemoveBraces(s));
  }

  // ----- `<...>` tags -----

  /** `re.sub(r'<[^>]+>', '', s)`: a `<` whose first later `>` is not the very next
      character opens a tag running to that `>`, and the tag is deleted. */
  function RemoveTags(s: string): (r: string)
    ensures |r| <= |s|
    ensures forall k :: 0 <= k < |r| ==> r[k] in s
    decreases |s|
  {
    if s == "" then ""
    else if s[0] == '<' && '>' in s[1..] && s[1] != '>' then
      RemoveTags(s[IndexOf(s[1..], '>') + 2..])
    else
      [s[0]] + RemoveTags(s[1..])
  }

  /** The pattern has no match: every `<` with a later `>` is immediately followed
      by `>`, so nothing lies between them. */
  predicate TagFree(s: string) {
    forall i, j :: 0 <= i < j < |s| && s[i] == '<' && s[j] == '>' ==> s[i + 1] == '>'
  }

  lemma ConsTagFree(c: char, rest: string)
    requires TagFree(rest)
    requires c == '<' ==> '>' !in rest || rest[0] == '>'
    ensures TagFree([c] + rest)
  {
    var r := [c] + rest;
    forall i, j | 0 <= i < j < |r| && r[i] == '<' && r[j] == '>' ensures r[i + 1] == '>' {
      assert r[j] == rest[j - 1];
      if i > 0 {
        assert r[i] == rest[i - 1] && r[i + 1] == rest[i];
      }
    }
  }

  lemma {:induction false} RemoveTagsTagFree(s: string)
    ensures TagFree(RemoveTags(s))
  {
    if s == "" {
    } else if s[0] == '<' && '>' in s[1..] && s[1] != '>' {
      RemoveTagsTagFree(s[IndexOf(s[1..], '>') + 2..]);
    } else {
      var rest := RemoveTags(s[1..]);
      RemoveTagsTagFree(s[1..]);
      if s[0] == '<' {
        if '>' in s[1..] {
          assert s[1..][0] == '>';
          assert rest == [s[1]] + RemoveTags(s[1..][1..]);
        }
      }
      ConsTagFree(s[0], rest);
    }
  }

  lemma TagFreeTail(s: string)
    requires s != "" && TagFree(s)
    ensures TagFree(s[1..])
  {
    forall i, j | 0 <= i < j < |s| - 1 && s[1..][i] == '<' && s[1..][j] == '>'
      ensures s[1..][i + 1] == '>'
    {
      assert s[1..][i] == s[i + 1] && s[1..][j] == s[j + 1] && s[1..][i + 1] == s[i + 2];
    }
  }

  /** In a tag-free string a `<` never opens a tag. */
  lemma TagFreeHead(s: string)
    requires s != "" && TagFree(s) && s[0] == '<' && '>' in s[1..]
    ensures s[1] == '>'
  {
    var k := IndexOf(s[1..], '>');
    assert s[k + 1] == '>';
  }

  lemma TagFreeStep(s: string)
    requires s != "" && TagFree(s)
    ensures RemoveTags(s) == [s[0]] + RemoveTags(s[1..])
  {
    if s[0] == '<' && '>' in s[1..] {
      TagFreeHead(s);
    }
  }

  lemma {:induction false} RemoveTagsFixed(s: string)
    requires TagFree(s)
    ensures RemoveTags(s) == s
  {
    if s != "" {
      TagFreeStep(s);
      TagFreeTail(s);
      RemoveTagsFixed(s[1..]);
    }
  }

  lemma RemoveTagsIdempotent(s: string)
    ensures RemoveTags(RemoveTags(s)) == RemoveTags(s)
  {
    RemoveTagsTagFree(s);
    RemoveTagsFixed(RemoveTags(s));
  }

  // ----- `[^\w\s]` punctuation removal -----

  predicate IsCleanChar(c: char) { IsWordChar(c) || IsSpace(c) }

  /** `re.sub(r'[^\w\s]', '', s)`: the word and whitespace characters, in order. */
  function KeepClean(s: string): (r: string)
    ensures |r| <= |s|
    ensures forall k :: 0 <= k < |r| ==> IsCleanChar(r[k]) && r[k] in s
  {
    if s == "" then "" else (if IsCleanChar(s[0]) then [s[0]] else "") + KeepClean(s[1..])
  }

  /** `re.sub(r'[^\w\s]', '', s.lower())`, the normal form the subtitle matchers
      compare sentences in. */
  function Clean(s: string): string {
    KeepClean(Lower(s))
  }

  lemma {:induction false} KeepCleanFixed(s: string)
    requires forall k :: 0 <= k < |s| ==> IsCleanChar(s[k])
    ensures KeepClean(s) == s
  {
    if s != "" {
      KeepCleanFixed(s[1..]);
    }
  }

  lemma LowerFixed(s: string)
    requires forall k :: 0 <= k < |s| ==> !IsAsciiUpper(s[k])
    ensures Lower(s) == s
  {
  }

  /** The normal form holds only lower-case word and whitespace characters, and
      normalising it again changes nothing. */
  lemma CleanProperties(s: string)
    ensures forall k :: 0 <= k < |Clean(s)| ==> IsCleanChar(Clean(s)[k]) && !IsAsciiUpper(Clean(s)[k])
    ensures Clean(Clean(s)) == Clean(s)
  {
    var c := Clean(s);
    assert forall k :: 0 <= k < |c| ==> !IsAsciiUpper(c[k]) by {
      forall k | 0 <= k < |c| ensures !IsAsciiUpper(c[k]) {
        assert c[k] in Lower(s);
      }
    }
    LowerFixed(c);
    KeepCleanFixed(c);
  }

  // ----- literal patterns with optional `\b` -----

  /** `\b` at position `p`: a word character on exactly one side of it. */
  predicate Boundary(s: string, p: nat)
    requires p <= |s|
  {
    (p > 0 && IsWordChar(s[p - 1])) != (p < |s| && IsWordChar(s[p]))
  }

  /** `a` and `b` agree once both are lower-cased. */
  predicate EqualIgnoringCase(a: string, b: string) {
    |a| == |b| && forall i :: 0 <= i < |a| ==> LowerChar(a[i]) == LowerChar(b[i])
  }

  /** The escaped literal `t`, compiled with `re.IGNORECASE` and wrapped in `\b`
      on both sides when `bounded` holds, matches `s` at position `p`. */
  predicate MatchAt(s: string, t: string, bounded: bool, p: nat) {
    p + |t| <= |s| && EqualIgnoringCase(s[p..p + |t|], t)
    && (bounded ==> Boundary(s, p) && Boundary(s, p + |t|))
  }

  /** `pattern.sub(f, s[p:])` with the scan starting at `p` (the text before `p`
      still decides `\b`): each leftmost match is replaced by `f` of the matched
      text and the scan resumes after it. An empty literal matches, emptily, at
      every position the boundaries allow. */
  function SubFrom(s: string, t: string, bounded: bool, f: string -> string, p: nat): string
    requires p <= |s|
    decreases |s| - p
  {
    if MatchAt(s, t, bounded, p) then
      f(s[p..p + |t|])
      + (if t != "" then SubFrom(s, t, bounded, f, p + |t|)
         else if p < |s| then [s[p]] + SubFrom(s, t, bounded, f, p + 1)
         else "")
    else if p < |s| then [s[p]] + SubFrom(s, t, bounded, f, p + 1)
    else ""
  }

  function Sub(s: string, t: string, bounded: bool, f: string -> string): string {
    SubFrom(s, t, bounded, f, 0)
  }

  lemma SubFromCopies(s: string, t: string, bounded: bool, f: string -> string, p: nat)
    requires p < |s| && !MatchAt(s, t, bounded, p)
    ensures SubFrom(s, t, bounded, f, p) == [s[p]] + SubFrom(s, t, bounded, f, p + 1)
  {
  }

  /** Where nothing matches, the substitution copies the text. */
  lemma {:induction false} SubFromUnmatched(s: string, t: string, bounded: bool, f: string -> string, p: nat)
    requires p <= |s|
    requires forall q :: p <= q <= |s| ==> !MatchAt(s, t, bounded, q)
    ensures SubFrom(s, t, bounded, f, p) == s[p..]
    decreases |s| - p
  {
    if p < |s| {
      SubFromCopies(s, t, bounded, f, p);
      SubFromUnmatched(s, t, bounded, f, p + 1);
      assert s[p..] == [s[p]] + s[p + 1..];
    }
  }

  /** The text up to the first match is copied unchanged. */
  lemma {:induction false} SubFromFirst(s: string, t: string, bounded: bool, f: string -> string, p: nat, q: nat)
    requires p <= q <= |s|
    requires forall k :: p <= k < q ==> !MatchAt(s, t, bounded, k)
    ensures SubFrom(s, t, bounded, f, p) == s[p..q] + SubFrom(s, t, bounded, f, q)
    decreases q - p
  {
    if p < q {
      SubFromCopies(s, t, bounded, f, p);
      SubFromFirst(s, t, bounded, f, p + 1, q);
      var rest := SubFrom(s, t, bounded, f, q);
      calc {
        SubFrom(s, t, bounded, f, p);
        [s[p]] + SubFrom(s, t, bounded, f, p + 1);
        [s[p]] + (s[p + 1..q] + rest);
        { assert s[p..q] == [s[p]] + s[p + 1..q]; }
        s[p..q] + rest;
      }
    }
  }

  /** The text up to the first match is copied, that match is replaced by `f` of
      it, and the scan resumes after it. */
  lemma SubFirstMatch(s: string, t: string, bounded: bool, f: string -> string, q: nat)
    requires t != "" && MatchAt(s, t, bounded, q)
    requires forall k :: 0 <= k < q ==> !MatchAt(s, t, bounded, k)
    ensures Sub(s, t, bounded, f) == s[..q] + f(s[q..q + |t|]) + SubFrom(s, t, bounded, f, q + |t|)
  {
    SubFromFirst(s, t, bounded, f, 0, q);
    assert s[0..q] == s[..q];
  }
}
