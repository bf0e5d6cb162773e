/** `extractJSON`: strip markdown code fences from the model's reply, trim it,
    and keep the span from the first `[` to the last `]` when there is one. */
module Extraction {
  import opened Wrappers
  import opened Text

  const Fence: string := "```"
  const JsonFence: string := "```json"

  /** Some backtick fence occurs in `s`. */
  predicate HasFence(s: string)
  {
    exists i: nat :: i < |s| && OccursAt(s, i, Fence)
  }

  /** Length of the match of the alternation `/```json\s*|\s*```/` anchored
      at the start of `s`. The first alternative is tried first; its `\s*`
      is greedy and cannot fail. The second succeeds exactly when the whole
      whitespace run at the start is followed by a fence, since giving back
      whitespace leaves a whitespace character where a backtick is needed. */
  function FenceMatchAt(s: string): (r: Option<nat>)
    ensures r.Some? ==> 3 <= r.value <= |s|
  {
    if StartsWith(s, JsonFence) then
      Some(|JsonFence| + LeadingWhiteSpace(s[|JsonFence|..]))
    else
      var w := LeadingWhiteSpace(s);
      if OccursAt(s, w, Fence) then Some(w + 3) else None
  }

  /** What a fence match at the start of `s` is, independently of how it is
      found: either the text opens with "```json" and the match runs to the
      end of the whitespace after it, or some whitespace prefix is followed
      by a fence and the match ends with that fence. */
  lemma FenceMatchAtMeaning(s: string)
    ensures FenceMatchAt(s).Some? <==>
      || StartsWith(s, JsonFence)
      || exists n: nat :: OccursAt(s, n, Fence) && AllWhiteSpace(s[..n])
    ensures StartsWith(s, JsonFence) ==>
      var n := FenceMatchAt(s).value;
      && |JsonFence| <= n
      && AllWhiteSpace(s[|JsonFence|..n])
      && (n < |s| ==> !IsWhiteSpace(s[n]))
    ensures FenceMatchAt(s).Some? && !StartsWith(s, JsonFence) ==>
      var n := FenceMatchAt(s).value;
      AllWhiteSpace(s[..n - 3]) && OccursAt(s, n - 3, Fence)
  {
    if StartsWith(s, JsonFence) {
      var w := LeadingWhiteSpace(s[|JsonFence|..]);
      assert s[|JsonFence|..][..w] == s[|JsonFence|..|JsonFence| + w];
    } else {
      var w := LeadingWhiteSpace(s);
      forall n: nat | OccursAt(s, n, Fence) && AllWhiteSpace(s[..n]) ensures n == w {
        assert s[n..n + 3][0] == '`';
        LeadingWhiteSpaceUnique(s, n);
      }
    }
  }

  /** The global replacement of fence matches by the empty string: a left to
      right scan over non-overlapping matches, copying one character where
      no match starts. */
  function StripFences(s: string): (r: string)
    ensures |r| <= |s|
    decreases |s|
  {
    if |s| == 0 then []
    else
      match FenceMatchAt(s)
      case Some(n) => StripFences(s[n..])
      case None => [s[0]] + StripFences(s[1..])
  }

  /** The `cleanText` of `extractJSON`. */
  function CleanText(text: string): string
  {
    Trim(StripFences(text))
  }

  /** `[i..j]` is the span of `/\[[\s\S]*\]/` in `s`: the regex takes the
      leftmost `[` that has some `]` after it (which is the first `[`), and
      the greedy `[\s\S]*` stretches to the last `]`. */
  predicate IsArraySpan(s: string, i: nat, j: nat)
  {
    && i < j < |s| && s[i] == '[' && s[j] == ']'
    && (forall k :: 0 <= k < i ==> s[k] != '[')
    && (forall k :: j < k < |s| ==> s[k] != ']')
  }

  /** Some `[` comes before some `]`. */
  predicate HasBracketPair(s: string)
  {
    exists i: nat, j: nat :: i < j < |s| && s[i] == '[' && s[j] == ']'
  }

  /** `cleanText.match(/\[[\s\S]*\]/)`. */
  function MatchArray(s: string): (r: Option<string>)
    ensures r.Some? <==> HasBracketPair(s)
    ensures r.Some? ==> exists i: nat, j: nat :: IsArraySpan(s, i, j) && r.value == s[i..j + 1]
  {
    match (IndexOf(s, '['), LastIndexOf(s, ']'))
    case (Some(i), Some(j)) =>
      if i < j then
        assert IsArraySpan(s, i, j);
        Some(s[i..j + 1])
      else None
    case _ => None
  }

  /** The one-expression `extractJSON` of utils/analysisUtils.js. */
  function ExtractJson(text: string): (r: string)
    ensures var c := CleanText(text);
      && (exists i: nat :: OccursAt(c, i, r))
      && (HasBracketPair(c) ==> exists i: nat, j: nat :: IsArraySpan(c, i, j) && r == c[i..j + 1])
      && (!HasBracketPair(c) ==> r == c)
    ensures 0 < |r| ==> !IsWhiteSpace(r[0]) && !IsWhiteSpace(r[|r| - 1])
  {
    var cleanText := CleanText(text);
    var jsonMatch := MatchArray(cleanText);
    var r := if jsonMatch.Some? then jsonMatch.value else cleanText;
    ExtractJsonFacts(cleanText, jsonMatch, r);
    r
  }

  lemma ExtractJsonFacts(c: string, m: Option<string>, r: string)
    requires m == MatchArray(c)
    requires 0 < |c| ==> !IsWhiteSpace(c[0]) && !IsWhiteSpace(c[|c| - 1])
    requires r == if m.Some? then m.value else c
    ensures exists i: nat :: OccursAt(c, i, r)
    ensures HasBracketPair(c) ==> exists i: nat, j: nat :: IsArraySpan(c, i, j) && r == c[i..j + 1]
    ensures !HasBracketPair(c) ==> r == c
    ensures 0 < |r| ==> !IsWhiteSpace(r[0]) && !IsWhiteSpace(r[|r| - 1])
  {
    if m.Some? {
      ArrayMatchFacts(c, m.value);
    } else {
      assert OccursAt(c, 0, r);
    }
  }

  /** The array span is a substring opening with `[` and closing with `]`. */
  lemma ArrayMatchFacts(c: string, v: string)
    requires MatchArray(c) == Some(v)
    ensures exists i: nat :: OccursAt(c, i, v)
    ensures 0 < |v| && v[0] == '[' && v[|v| - 1] == ']'
  {
    var i := IndexOf(c, '[').value;
    var j := LastIndexOf(c, ']').value;
    assert v == c[i..j + 1];
    assert OccursAt(c, i, v);
  }

  /** After the replacement has scanned `s[..i]` and emitted `out`, what is
      left to emit is the replacement of `s[i..]`. */
  ghost predicate Scanned(s: string, i: nat, out: string)
  {
    i <= |s| && out + StripFences(s[i..]) == StripFences(s)
  }

  /** The global replace as the regex engine runs it: `lastIndex` walks the
      text, each match is dropped and each unmatched character copied. */
  method ReplaceFences(s: string) returns (out: string)
    ensures out == StripFences(s)
  {
    out := [];
    var i: nat := 0;
    assert s[i..] == s;
    while i < |s|
      invariant Scanned(s, i, out)
      decreases |s| - i
    {
      i, out := ReplaceStep(s, i, out);
    }
    assert s[i..] == [];
  }

  /** One attempt of the regex at `lastIndex == i`: on a match, skip it;
      otherwise copy one character. */
  method ReplaceStep(s: string, i: nat, out: string) returns (j: nat, out': string)
    requires i < |s| && Scanned(s, i, out)
    ensures i < j && Scanned(s, j, out')
  {
    var m := FenceMatchAt(s[i..]);
    j := if m.Some? then i + m.value else i + 1;
    out' := if m.Some? then out else out + [s[i]];
    StepKeepsScan(s, i, out, m, j, out');
  }

  lemma StepKeepsScan(s: string, i: nat, out: string, m: Option<nat>, j: nat, out': string)
    requires i < |s| && Scanned(s, i, out)
    requires m == FenceMatchAt(s[i..])
    requires j == (if m.Some? then i + m.value else i + 1)
    requires out' == (if m.Some? then out else out + [s[i]])
    ensures i < j && Scanned(s, j, out')
  {
    if m.Some? {
      SkipKeepsScan(s, i, m.value, out, j);
    } else {
      CopyKeepsScan(s, i, out, j, out');
    }
  }

  /** A match at `i` is dropped. */
  lemma SkipKeepsScan(s: string, i: nat, n: nat, out: string, j: nat)
    requires i < |s| && FenceMatchAt(s[i..]) == Some(n)
    requires Scanned(s, i, out) && j == i + n
    ensures i < j && Scanned(s, j, out)
  {
    StripFencesSkip(s[i..], n);
    assert s[i..][n..] == s[j..];
  }

  /** With no match at `i`, the character there is copied. */
  lemma CopyKeepsScan(s: string, i: nat, out: string, j: nat, out': string)
    requires i < |s| && FenceMatchAt(s[i..]).None?
    requires Scanned(s, i, out) && j == i + 1 && out' == out + [s[i]]
    ensures i < j && Scanned(s, j, out')
  {
    StripFencesCopy(s[i..]);
    assert s[i..][1..] == s[j..];
    AppendShift(out, s[i], StripFences(s[j..]));
  }

  lemma StripFencesSkip(t: string, n: nat)
    requires 0 < |t| && FenceMatchAt(t) == Some(n)
    ensures n <= |t| && StripFences(t) == StripFences(t[n..])
  {
  }

  lemma StripFencesCopy(t: string)
    requires 0 < |t| && FenceMatchAt(t).None?
    ensures StripFences(t) == [t[0]] + StripFences(t[1..])
  {
  }

  lemma AppendShift(a: string, c: char, b: string)
    ensures (a + [c]) + b == a + ([c] + b)
  {
  }

  /** The statement-by-statement `extractJSON` of script.js: it returns the
      same text as the one-expression form for every input. */
  method ExtractJsonScript(text: string) returns (r: string)
    ensures r == ExtractJson(text)
  {
    var stripped := ReplaceFences(text);
    var cleanText := Trim(stripped);
    var jsonMatch := MatchArray(cleanText);
    if jsonMatch.Some? {
      return jsonMatch.value;
    }
    return cleanText;
  }

  /** Fence-free text survives the replacement unchanged. */
  lemma {:induction false} StripFencesOfFenceFree(s: string)
    requires !HasFence(s)
    ensures StripFences(s) == s
    decreases |s|
  {
    if |s| > 0 {
      JsonFenceOpensWithFence(s);
      FenceMatchAtMeaning(s);
      assert FenceMatchAt(s).None?;
      FenceFreeSuffix(s, 1);
      StripFencesOfFenceFree(s[1..]);
      assert s == [s[0]] + s[1..];
    }
  }

  lemma FenceFreeSuffix(s: string, a: nat)
    requires a <= |s| && !HasFence(s)
    ensures !HasFence(s[a..])
  {
    forall i: nat | i < |s[a..]| && OccursAt(s[a..], i, Fence) ensures OccursAt(s, a + i, Fence) {
      assert s[a..][i..i + 3] == s[a + i..a + i + 3];
    }
  }

  lemma JsonFenceOpensWithFence(s: string)
    ensures StartsWith(s, JsonFence) ==> OccursAt(s, 0, Fence)
  {
    if StartsWith(s, JsonFence) {
      assert s[..3] == s[..|JsonFence|][..3];
    }
  }

  /** Inside `u + s` an occurrence that ends within `u` is an occurrence in `u`. */
  lemma OccursAtPrefix(u: string, t: string, k: nat, p: string)
    ensures k + |p| <= |u| ==> (OccursAt(u + t, k, p) <==> OccursAt(u, k, p))
  {
    if k + |p| <= |u| {
      assert (u + t)[k..k + |p|] == u[k..k + |p|];
    }
  }

  lemma OccursAtChars(s: string, k: nat, p: string)
    requires OccursAt(s, k, p)
    ensures forall t :: k <= t < k + |p| ==> s[t] == p[t - k]
  {
    forall t | k <= t < k + |p| ensures s[t] == p[t - k] {
      assert s[k..k + |p|][t - k] == s[t];
    }
  }

  /** In fence-free `u` followed by a newline and a fence, the only fence is
      the final one. */
  lemma FenceInClosedText(u: string, k: nat)
    requires !HasFence(u)
    requires OccursAt(u + "\n" + Fence, k, Fence)
    ensures k == |u| + 1
  {
    var s := u + "\n" + Fence;
    assert s == u + ("\n" + Fence);
    OccursAtPrefix(u, "\n" + Fence, k, Fence);
    OccursAtChars(s, k, Fence);
    assert s[|u|] == '\n';
  }

  /** The closing fence, with every whitespace character before it, is
      removed; text before that is kept as it is. */
  lemma {:induction false} StripFencesOfClosedText(u: string)
    requires !HasFence(u)
    ensures StripFences(u + "\n" + Fence) == u[..TrailingWhiteSpaceStart(u)]
    decreases |u|
  {
    if AllWhiteSpace(u) {
      StripFencesOfClosedBlankText(u);
    } else {
      FenceFreeSuffix(u, 1);
      StripFencesOfClosedText(u[1..]);
      StripFencesOfClosedTextCons(u);
    }
  }

  lemma StripFencesOfClosedTextCons(u: string)
    requires !HasFence(u) && !AllWhiteSpace(u)
    requires StripFences(u[1..] + "\n" + Fence) == u[1..][..TrailingWhiteSpaceStart(u[1..])]
    ensures StripFences(u + "\n" + Fence) == u[..TrailingWhiteSpaceStart(u)]
  {
    StripFencesOfClosedTextStep(u);
    TrailingWhiteSpaceStartOfTail(u);
    PrefixOfCons(u, TrailingWhiteSpaceStart(u[1..]));
  }

  lemma PrefixOfCons(u: string, k: nat)
    requires k < |u|
    ensures u[..1 + k] == [u[0]] + u[1..][..k]
  {
  }

  lemma DropFirstOfAppend(u: string, t: string)
    requires 0 < |u|
    ensures (u + t)[0] == u[0] && (u + t)[1..] == u[1..] + t
  {
  }

  lemma StripFencesOfClosedBlankText(u: string)
    requires !HasFence(u) && AllWhiteSpace(u)
    ensures StripFences(u + "\n" + Fence) == u[..TrailingWhiteSpaceStart(u)] == []
  {
    var s := u + "\n" + Fence;
    ClosedBlankTextMatches(u);
    assert s[|s|..] == [];
    TrailingWhiteSpaceStartOfPadded([], u);
    assert [] + u == u;
  }

  lemma StripFencesOfClosedTextStep(u: string)
    requires !HasFence(u) && !AllWhiteSpace(u)
    ensures 0 < |u|
    ensures StripFences(u + "\n" + Fence) == [u[0]] + StripFences(u[1..] + "\n" + Fence)
  {
    var s := u + "\n" + Fence;
    ClosedTextNoMatchAtStart(u);
    StripFencesCopy(s);
    DropFirstOfAppend(u, "\n");
    DropFirstOfAppend(u + "\n", Fence);
  }

  /** Blank text before the closing fence is one match, to the very end. */
  lemma ClosedBlankTextMatches(u: string)
    requires !HasFence(u) && AllWhiteSpace(u)
    ensures FenceMatchAt(u + "\n" + Fence) == Some(|u| + 4)
  {
    var s := u + "\n" + Fence;
    assert OccursAt(s, |u| + 1, Fence);
    assert AllWhiteSpace(s[..|u| + 1]);
    assert !StartsWith(s, JsonFence) by {
      JsonFenceOpensWithFence(s);
      assert 0 < |u| ==> IsWhiteSpace(s[0]);
      assert |u| == 0 ==> s[0] == '\n';
    }
    FenceMatchAtMeaning(s);
    var n := FenceMatchAt(s).value;
    FenceInClosedText(u, n - 3);
  }

  /** Text with some non-whitespace before the closing fence has no match at
      its start. */
  lemma ClosedTextNoMatchAtStart(u: string)
    requires !HasFence(u) && !AllWhiteSpace(u)
    ensures FenceMatchAt(u + "\n" + Fence).None?
  {
    var s := u + "\n" + Fence;
    var i :| 0 <= i < |u| && !IsWhiteSpace(u[i]);
    assert s[..|u| + 1][i] == u[i];
    forall k: nat | OccursAt(s, k, Fence) ensures k == |u| + 1 {
      FenceInClosedText(u, k);
    }
    JsonFenceOpensWithFence(s);
    FenceMatchAtMeaning(s);
  }

  /** The fenced form `"```json\n" + s + "\n```"` strips to the trimmed `s`:
      the opening fence takes the leading whitespace and the closing fence
      the trailing whitespace. */
  lemma StripFencesOfFencedText(s: string)
    requires !HasFence(s)
    ensures StripFences(JsonFence + "\n" + s + "\n" + Fence) == Trim(s)
  {
    if AllWhiteSpace(s) {
      StripFencesOfFencedBlank(s);
    } else {
      StripFencesOfFencedNonBlank(s);
    }
  }

  lemma StripFencesOfFencedBlank(s: string)
    requires AllWhiteSpace(s)
    ensures StripFences(JsonFence + "\n" + s + "\n" + Fence) == [] == Trim(s)
  {
    var f := JsonFence + "\n" + s + "\n" + Fence;
    FencedBlankMatches(s);
    StripFencesSkip(f, |f| - 3);
    assert f[|f| - 3..] == Fence;
    StripFencesOfFence();
  }

  /** The opening fence of a blank block takes everything up to the closing one. */
  lemma FencedBlankMatches(s: string)
    requires AllWhiteSpace(s)
    ensures var f := JsonFence + "\n" + s + "\n" + Fence;
      FenceMatchAt(f) == Some(|f| - 3)
  {
    var pad := "\n" + s + "\n";
    assert AllWhiteSpace(pad) by {
      assert forall i :: 0 < i < |pad| - 1 ==> pad[i] == s[i - 1];
    }
    assert JsonFence + "\n" + s + "\n" + Fence == JsonFence + (pad + Fence);
    OpeningFenceMatch(pad, Fence);
  }

  /** `"```json"` followed by whitespace and then a non-whitespace character
      is one match, ending at that character. */
  lemma OpeningFenceMatch(pad: string, t: string)
    requires AllWhiteSpace(pad)
    requires 0 < |t| ==> !IsWhiteSpace(t[0])
    ensures FenceMatchAt(JsonFence + (pad + t)) == Some(|JsonFence| + |pad|)
  {
    var f := JsonFence + (pad + t);
    assert f[..|JsonFence|] == JsonFence;
    assert f[|JsonFence|..] == pad + t;
    LeadingWhiteSpaceOfPadded(pad, t);
  }

  lemma StripFencesOfFence()
    ensures StripFences(Fence) == []
  {
    assert OccursAt(Fence, 0, Fence) && AllWhiteSpace(Fence[..0]);
    FenceMatchAtMeaning(Fence);
    StripFencesSkip(Fence, 3);
    assert Fence[3..] == [];
  }

  lemma StripFencesOfFencedNonBlank(s: string)
    requires !HasFence(s) && !AllWhiteSpace(s)
    ensures StripFences(JsonFence + "\n" + s + "\n" + Fence) == Trim(s)
  {
    var f := JsonFence + "\n" + s + "\n" + Fence;
    var lo := LeadingWhiteSpace(s);
    var u := s[lo..];
    var pad := "\n" + s[..lo];
    assert AllWhiteSpace(pad) by {
      assert forall i :: 0 < i < |pad| ==> pad[i] == s[..lo][i - 1];
    }
    FencedNonBlankForm(s, lo);
    OpeningFenceMatch(pad, u + "\n" + Fence);
    StripFencesSkip(f, |JsonFence| + |pad|);
    assert f[|JsonFence| + |pad|..] == u + "\n" + Fence;
    FenceFreeSuffix(s, lo);
    StripFencesOfClosedText(u);
  }

  lemma FencedNonBlankForm(s: string, lo: nat)
    requires lo < |s| && !IsWhiteSpace(s[lo])
    ensures JsonFence + "\n" + s + "\n" + Fence == JsonFence + (("\n" + s[..lo]) + (s[lo..] + "\n" + Fence))
    ensures (s[lo..] + "\n" + Fence)[0] == s[lo]
  {
    assert s == s[..lo] + s[lo..];
  }

  /** Fence transparency: wrapping fence-free text in a markdown JSON code
      block does not change what `extractJSON` returns. */
  lemma ExtractJsonFenceTransparent(s: string)
    requires !HasFence(s)
    ensures ExtractJson(JsonFence + "\n" + s + "\n" + Fence) == ExtractJson(s)
  {
    StripFencesOfFencedText(s);
    StripFencesOfFenceFree(s);
    TrimIdempotent(s);
  }
}
