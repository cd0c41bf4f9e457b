/** Splitting a text into words (`src/engine.rs`, `tokenize`). A text is the sequence of its
    characters; byte offsets are those of its UTF-8 encoding. */
module Tokenizer {
  import opened Prelude

  datatype Token = Token(token: string, startByte: nat, endByte: nat, startChar: nat)

  /** Unicode `White_Space`, which is what `\s` means to the regex engine. */
  predicate IsSpace(c: char) {
    '\U{9}' <= c <= '\U{D}' || c == ' ' || c == '\U{85}' || c == '\U{A0}' || c == '\U{1680}'
    || '\U{2000}' <= c <= '\U{200A}' || c == '\U{2028}' || c == '\U{2029}' || c == '\U{202F}' || c == '\U{205F}'
    || c == '\U{3000}'
  }

  const PUNCTUATION := ".,;:!?\"'()[]{}"

  predicate IsPunctuation(c: char) { c in PUNCTUATION }

  predicate AllPunctuation(s: string) { forall i :: 0 <= i < |s| ==> IsPunctuation(s[i]) }

  function CharBytes(c: char): nat {
    if c < '\U{80}' then 1 else if c < '\U{800}' then 2 else if c < '\U{10000}' then 3 else 4
  }

  /** Length of the UTF-8 encoding. */
  function Utf8Length(s: string): nat { if s == "" then 0 else Utf8Length(s[..|s| - 1]) + CharBytes(s[|s| - 1]) }

  /** The two character classes, by code point. */
  lemma CharacterClasses(c: char)
    ensures var n := c as int;
            IsSpace(c) <==>
            9 <= n <= 13 || n == 32 || n == 133 || n == 160 || n == 5760 || 8192 <= n <= 8202
            || n == 8232 || n == 8233 || n == 8239 || n == 8287 || n == 12288
    ensures IsPunctuation(c) <==>
            c == '.' || c == ',' || c == ';' || c == ':' || c == '!' || c == '?' || c == '"' || c == '\''
            || c == '(' || c == ')' || c == '[' || c == ']' || c == '{' || c == '}'
  {
    assert IsPunctuation(c) <==> exists i :: 0 <= i < 14 && c == PUNCTUATION[i];
  }

  /** The UTF-8 encoding of a character, section 3 of RFC 3629: the leading byte tells how many
      continuation bytes of six bits each follow. */
  function Encoded(c: char): seq<nat> {
    var n := c as int;
    if n < 0x80 then [n]
    else if n < 0x800 then [0xC0 + n / 64, 0x80 + n % 64]
    else if n < 0x1_0000 then [0xE0 + n / 4096, 0x80 + n / 64 % 64, 0x80 + n % 64]
    else [0xF0 + n / 262144, 0x80 + n / 4096 % 64, 0x80 + n / 64 % 64, 0x80 + n % 64]
  }

  function EncodedText(s: string): seq<nat> { if s == "" then [] else Encoded(s[0]) + EncodedText(s[1..]) }

  lemma {:induction false} EncodedConcat(s: string, t: string)
    ensures EncodedText(s + t) == EncodedText(s) + EncodedText(t)
  {
    if s == "" {
      assert s + t == t;
    } else {
      EncodedConcat(s[1..], t);
      assert (s + t)[0] == s[0] && (s + t)[1..] == s[1..] + t;
    }
  }

  /** The byte count is the length of the encoding. */
  lemma {:induction false} Utf8LengthIsEncoded(s: string)
    ensures Utf8Length(s) == |EncodedText(s)|
    decreases |s|
  {
    if s != "" {
      var (init, last) := (s[..|s| - 1], s[|s| - 1]);
      Utf8LengthIsEncoded(init);
      EncodedConcat(init, [last]);
      assert s == init + [last];
      assert EncodedText([last]) == Encoded(last) + EncodedText([last][1..]);
    }
  }

  // ---- Stripping --------------------------------------------------------------------

  /** The first character that is not punctuation, or the length. */
  function FirstKept(s: string): (i: nat)
    ensures i <= |s|
  {
    if s == "" || !IsPunctuation(s[0]) then 0 else 1 + FirstKept(s[1..])
  }

  /** One past the last character that is not punctuation, if there is one. */
  function LastKept(s: string): (i: Option<nat>)
    ensures i.Some? ==> i.value <= |s|
  {
    if s == "" then None else if !IsPunctuation(s[|s| - 1]) then Some(|s|) else LastKept(s[..|s| - 1])
  }

  /** `strip_surrounding_punctuation`; `None` when the slice is out of range, where the source
      panics. When nothing is kept, the end is taken to be `start`, an offset into `s`, although
      it is used as one into `s[start..]`. */
  function Strip(s: string): Option<string> {
    var start := FirstKept(s);
    var end := match LastKept(s[start..]) { case Some(i) => i case None => start };
    if start + end <= |s| then Some(s[start..start + end]) else None
  }

  lemma {:induction false} FirstKeptMeaning(s: string)
    ensures AllPunctuation(s[..FirstKept(s)])
    ensures FirstKept(s) < |s| ==> !IsPunctuation(s[FirstKept(s)])
  {
    hide IsPunctuation;
    if s != "" && IsPunctuation(s[0]) {
      var rest := s[1..];
      FirstKeptMeaning(rest);
      assert forall i :: 0 < i < FirstKept(s) ==> s[..FirstKept(s)][i] == rest[..FirstKept(rest)][i - 1];
    }
  }

  lemma {:induction false} LastKeptMeaning(s: string)
    ensures LastKept(s).None? <==> AllPunctuation(s)
    ensures LastKept(s).Some? ==> var i := LastKept(s).value;
                                  i > 0 && !IsPunctuation(s[i - 1]) && AllPunctuation(s[i..])
  {
    hide IsPunctuation;
    if s != "" && IsPunctuation(s[|s| - 1]) {
      var init := s[..|s| - 1];
      LastKeptMeaning(init);
      if LastKept(init).Some? {
        var i := LastKept(init).value;
        assert init[i - 1] == s[i - 1];
        assert forall k :: i <= k < |init| ==> s[k] == init[i..][k - i];
      } else {
        assert forall k :: 0 <= k < |init| ==> s[k] == init[k];
      }
    }
  }

  ghost predicate StrippedAt(s: string, i: nat, j: nat) {
    i < j <= |s| && AllPunctuation(s[..i]) && AllPunctuation(s[j..]) && !IsPunctuation(s[i]) && !IsPunctuation(s[j - 1])
  }

  /** `r` is `s` without its longest punctuation prefix and suffix. */
  ghost predicate IsStripped(s: string, r: string) {
    exists i: nat, j: nat :: StrippedAt(s, i, j) && r == s[i..j]
  }

  /** Stripping fails exactly on a text of nothing but punctuation, and never returns an empty text. */
  lemma StripMeaning(s: string)
    requires s != ""
    ensures Strip(s).None? <==> AllPunctuation(s)
    ensures Strip(s).Some? ==> IsStripped(s, Strip(s).value) && Strip(s).value != ""
  {
    var start := FirstKept(s);
    var rest := s[start..];
    FirstKeptMeaning(s);
    LastKeptMeaning(rest);
    hide FirstKept, LastKept, IsPunctuation;
    if start < |s| {
      assert !IsPunctuation(rest[0]);
      var end := LastKept(rest).value;
      assert s[start + end..] == rest[end..];
      assert StrippedAt(s, start, start + end);
    } else {
      assert s[..start] == s;
    }
  }

  lemma PunctuationBefore(s: string, i: nat, k: nat)
    requires k < i <= |s| && AllPunctuation(s[..i])
    ensures IsPunctuation(s[k])
  {
    assert s[..i][k] == s[k];
  }

  lemma PunctuationAfter(s: string, j: nat, k: nat)
    requires j <= k < |s| && AllPunctuation(s[j..])
    ensures IsPunctuation(s[k])
  {
    assert s[j..][k - j] == s[k];
  }

  /** There is only one way to strip a text. */
  lemma StrippedIsUnique(s: string, r: string, r': string)
    requires IsStripped(s, r) && IsStripped(s, r')
    ensures r == r'
  {
    hide AllPunctuation, IsPunctuation;
    var i: nat, j: nat :| StrippedAt(s, i, j) && r == s[i..j];
    var i': nat, j': nat :| StrippedAt(s, i', j') && r' == s[i'..j'];
    if i' < i {
      PunctuationBefore(s, i, i');
    } else if i < i' {
      PunctuationBefore(s, i', i);
    } else if j' < j {
      PunctuationAfter(s, j', j - 1);
    } else if j < j' {
      PunctuationAfter(s, j, j' - 1);
    }
  }

  // ---- Runs ----------------------------------------------------------------------------

  datatype Run = Run(start: nat, end: nat)

  /** A maximal run of non-space characters. */
  predicate IsRun(text: string, r: Run) {
    && r.start < r.end <= |text|
    && (forall i :: r.start <= i < r.end ==> !IsSpace(text[i]))
    && (r.start == 0 || IsSpace(text[r.start - 1]))
    && (r.end == |text| || IsSpace(text[r.end]))
  }

  function Raw(text: string, r: Run): string
    requires r.start <= r.end <= |text|
  {
    text[r.start..r.end]
  }

  function SkipSpaces(text: string, i: nat): (j: nat)
    requires i <= |text|
    ensures i <= j <= |text| && (forall k :: i <= k < j ==> IsSpace(text[k])) && (j < |text| ==> !IsSpace(text[j]))
    decreases |text| - i
  {
    if i < |text| && IsSpace(text[i]) then SkipSpaces(text, i + 1) else i
  }

  function SkipWord(text: string, i: nat): (j: nat)
    requires i <= |text|
    ensures i <= j <= |text| && (forall k :: i <= k < j ==> !IsSpace(text[k])) && (j < |text| ==> IsSpace(text[j]))
    decreases |text| - i
  {
    if i < |text| && !IsSpace(text[i]) then SkipWord(text, i + 1) else i
  }

  /** The matches of `\S+` from position `i` on. */
  function RunsFrom(text: string, i: nat): seq<Run>
    requires i <= |text|
    decreases |text| - i
  {
    var a := SkipSpaces(text, i);
    if a == |text| then [] else [Run(a, SkipWord(text, a))] + RunsFrom(text, SkipWord(text, a))
  }

  lemma {:induction false} RunsAreMaximal(text: string, i: nat)
    requires i <= |text| && (i == 0 || i == |text| || IsSpace(text[i]) || IsSpace(text[i - 1]))
    ensures forall k :: 0 <= k < |RunsFrom(text, i)| ==> i <= RunsFrom(text, i)[k].start && IsRun(text, RunsFrom(text, i)[k])
    ensures forall k, l :: 0 <= k < l < |RunsFrom(text, i)| ==> RunsFrom(text, i)[k].end < RunsFrom(text, i)[l].start
    decreases |text| - i
  {
    hide IsSpace;
    var a := SkipSpaces(text, i);
    if a < |text| {
      var b := SkipWord(text, a);
      RunsAreMaximal(text, b);
      var rest := RunsFrom(text, b);
      assert IsRun(text, Run(a, b));
      assert forall k :: 0 <= k < |rest| ==> b < rest[k].start;
    }
  }

  lemma {:induction false} RunsAreAll(text: string, i: nat, r: Run)
    requires i <= r.start && IsRun(text, r)
    ensures r in RunsFrom(text, i)
    decreases |text| - i
  {
    hide IsSpace;
    var a := SkipSpaces(text, i);
    var b := SkipWord(text, a);
    assert !IsSpace(text[r.start]);
    assert a <= r.start;
    if a == r.start {
      assert b == r.end;
    } else {
      assert a < b;
      assert IsSpace(text[r.start - 1]) && b <= r.start;
      RunsAreAll(text, b, r);
    }
  }

  // ---- Tokens -----------------------------------------------------------------------------

  function TokenOf(text: string, r: Run, stripped: string): Token
    requires r.start <= r.end <= |text|
  {
    Token(stripped, Utf8Length(text[..r.start]), Utf8Length(text[..r.end]), |text[..r.start]|)
  }

  function Push(text: string, tokens: seq<Token>, r: Run, stripped: string): seq<Token>
    requires r.start <= r.end <= |text|
  {
    if stripped != "" then tokens + [TokenOf(text, r, stripped)] else tokens
  }

  /** What `tokenize` has after some matches; `None` once stripping has panicked. */
  function Tokens(text: string, runs: seq<Run>): Option<seq<Token>>
    requires forall r :: r in runs ==> r.start <= r.end <= |text|
  {
    if runs == [] then Some([])
    else
      var last := runs[|runs| - 1];
      match Tokens(text, runs[..|runs| - 1])
      case None => None
      case Some(tokens) =>
        match Strip(Raw(text, last))
        case None => None
        case Some(stripped) => Some(Push(text, tokens, last, stripped))
  }

  lemma RunsFit(text: string)
    ensures forall r :: r in RunsFrom(text, 0) ==> r.start <= r.end <= |text|
  {
    RunsAreMaximal(text, 0);
  }

  function TokensOf(text: string): Option<seq<Token>> {
    RunsFit(text);
    Tokens(text, RunsFrom(text, 0))
  }

  lemma {:induction false} PanicLasts(text: string, runs: seq<Run>, n: nat)
    requires n <= |runs| && forall r :: r in runs ==> r.start <= r.end <= |text|
    requires Tokens(text, runs[..n]).None?
    ensures Tokens(text, runs).None?
    decreases |runs|
  {
    if n < |runs| {
      assert runs[..|runs| - 1][..n] == runs[..n];
      PanicLasts(text, runs[..|runs| - 1], n);
    } else {
      assert runs[..n] == runs;
    }
  }

  /** The loop of `tokenize` over the matches of `\S+`. */
  method Tokenize(text: string) returns (r: Option<seq<Token>>)
    ensures r == TokensOf(text)
  {
    hide Strip, TokenOf, RunsFrom;
    RunsFit(text);
    var tokens: seq<Token> := [];
    var runs := RunsFrom(text, 0);
    for n := 0 to |runs|
      invariant Tokens(text, runs[..n]) == Some(tokens)
    {
      var mat := runs[n];
      assert runs[..n + 1][..n] == runs[..n];
      var stripped := Strip(Raw(text, mat));
      if stripped.None? {
        PanicLasts(text, runs, n + 1);
        return None;
      }
      if stripped.value != "" {
        tokens := tokens + [TokenOf(text, mat, stripped.value)];
      }
    }
    assert runs[..|runs|] == runs;
    return Some(tokens);
  }

  lemma {:induction false} TokensFollowRuns(text: string, runs: seq<Run>)
    requires forall r :: r in runs ==> r.start < r.end <= |text|
    ensures Tokens(text, runs).None? <==> exists k :: 0 <= k < |runs| && AllPunctuation(Raw(text, runs[k]))
    ensures Tokens(text, runs).Some? ==>
              && |Tokens(text, runs).value| == |runs|
              && forall k :: 0 <= k < |runs| ==>
                   && IsStripped(Raw(text, runs[k]), Tokens(text, runs).value[k].token)
                   && Tokens(text, runs).value[k] == TokenOf(text, runs[k], Tokens(text, runs).value[k].token)
    decreases |runs|
  {
    hide Strip, Utf8Length, AllPunctuation, IsStripped;
    if runs != [] {
      var (init, last) := (runs[..|runs| - 1], runs[|runs| - 1]);
      TokensFollowRuns(text, init);
      assert forall k :: 0 <= k < |init| ==> init[k] == runs[k];
      StripMeaning(Raw(text, last));
      assert runs == init + [last];
      if k :| 0 <= k < |init| && AllPunctuation(Raw(text, init[k])) {
        assert AllPunctuation(Raw(text, runs[k]));
      }
    }
  }

  /** The token stands for the run: the run's offsets, and its text stripped. */
  ghost predicate TokenAt(text: string, t: Token, r: Run)
    requires r.start <= r.end <= |text|
  {
    && IsStripped(Raw(text, r), t.token)
    && t.startByte == |EncodedText(text[..r.start])| && t.endByte == |EncodedText(text[..r.end])|
    && t.startChar == r.start
  }

  lemma TokenOfIsAt(text: string, r: Run, stripped: string)
    requires r.start <= r.end <= |text| && IsStripped(Raw(text, r), stripped)
    ensures TokenAt(text, TokenOf(text, r, stripped), r)
  {
    Utf8LengthIsEncoded(text[..r.start]);
    Utf8LengthIsEncoded(text[..r.end]);
    hide Utf8Length, EncodedText, IsStripped;
  }

  /** `runs` lists every maximal run once, in text order. */
  ghost predicate AreTheRuns(text: string, runs: seq<Run>) {
    && (forall r :: r in runs <==> IsRun(text, r))
    && (forall k, l :: 0 <= k < l < |runs| ==> runs[k].end < runs[l].start)
  }

  lemma RunsAreTheRuns(text: string)
    ensures AreTheRuns(text, RunsFrom(text, 0))
  {
    hide RunsFrom;
    RunsAreMaximal(text, 0);
    forall r | IsRun(text, r)
      ensures r in RunsFrom(text, 0)
    {
      RunsAreAll(text, 0, r);
    }
    hide IsRun;
  }

  /** `tokenize` panics exactly when some run is all punctuation. Otherwise its tokens are the
      maximal non-space runs, in order and each once, stripped of their longest punctuation prefix
      and suffix; the offsets are those of the whole run. */
  lemma TokensAreRuns(text: string)
    ensures var runs := RunsFrom(text, 0);
            && AreTheRuns(text, runs) && (forall r :: r in runs ==> r.start < r.end <= |text|)
            && (TokensOf(text).None? <==> exists r :: r in runs && AllPunctuation(Raw(text, r)))
            && (TokensOf(text).Some? ==>
                  && |TokensOf(text).value| == |runs|
                  && forall k :: 0 <= k < |runs| ==> TokenAt(text, TokensOf(text).value[k], runs[k]))
  {
    hide Strip, IsStripped, AllPunctuation, Utf8Length, RunsFrom, Tokens, IsSpace;
    var runs := RunsFrom(text, 0);
    RunsAreTheRuns(text);
    assert forall r :: r in runs ==> r.start < r.end <= |text|;
    hide AreTheRuns, IsRun;
    TokensFollowRuns(text, runs);
    if TokensOf(text).Some? {
      forall k | 0 <= k < |runs|
        ensures TokenAt(text, TokensOf(text).value[k], runs[k])
      {
        TokenOfIsAt(text, runs[k], TokensOf(text).value[k].token);
      }
    }
  }

  lemma CommaIsRun()
    ensures IsRun("a , b", Run(2, 3)) && AllPunctuation(Raw("a , b", Run(2, 3)))
  {
  }

  /** A comma on its own is enough. */
  lemma LoneCommaPanics()
    ensures TokensOf("a , b").None?
  {
    hide IsRun, AllPunctuation, Raw, TokensOf, RunsFrom, TokenAt;
    CommaIsRun();
    TokensAreRuns("a , b");
  }
}
