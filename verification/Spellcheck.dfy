/** The two spell-check endpoints (`src/handlers.rs`, `spellcheck` and `spellcheck_positions`).
    The engine is its two deterministic functions, `check` and `suggest`; a request whose text
    makes `tokenize` panic gets no answer from either. */
module Spellcheck {
  import opened Prelude
  import opened Tokenizer
  import MapSums

  datatype TokenResult = TokenResult(token: string, valid: bool, suggestions: seq<string>)
  datatype PositionResult = PositionResult(token: string, positions: seq<nat>, suggestions: seq<string>)
  datatype PositionAccumulator = PositionAccumulator(positions: seq<nat>, suggestions: seq<string>)

  type Accumulators = map<string, PositionAccumulator>

  datatype Engine = Engine(check: string -> bool, suggest: string -> seq<string>)

  function ResultOf(engine: Engine, token: string): TokenResult {
    var valid := engine.check(token);
    TokenResult(token, valid, if valid then [] else engine.suggest(token))
  }

  // ---- /spellcheck ----------------------------------------------------------------------

  /** The tokens of the request, in the order they are checked: the text's, then the words. */
  function Checked(tokens: seq<Token>, words: seq<string>): seq<string> {
    seq(|tokens|, k requires 0 <= k < |tokens| => tokens[k].token) + words
  }

  function Results(engine: Engine, checked: seq<string>): seq<TokenResult> {
    seq(|checked|, k requires 0 <= k < |checked| => ResultOf(engine, checked[k]))
  }

  function TokensIn(text: Option<string>): Option<seq<Token>> {
    match text case Some(t) => TokensOf(t) case None => Some([])
  }

  function WordsIn(words: Option<seq<string>>): seq<string> { match words case Some(ws) => ws case None => [] }

  lemma OneMoreText(engine: Engine, tokens: seq<Token>, t: Token)
    ensures Results(engine, Checked(tokens + [t], [])) == Results(engine, Checked(tokens, [])) + [ResultOf(engine, t.token)]
  {
    assert Checked(tokens + [t], []) == Checked(tokens, []) + [t.token];
  }

  lemma OneMoreWord(engine: Engine, tokens: seq<Token>, words: seq<string>, w: string)
    ensures Results(engine, Checked(tokens, words + [w])) == Results(engine, Checked(tokens, words)) + [ResultOf(engine, w)]
  {
    assert Checked(tokens, words + [w]) == Checked(tokens, words) + [w];
  }

  /** One result for each text token and then for each word: whether the engine accepts it, and the
      engine's suggestions if it does not, none if it does. */
  ghost predicate IsListing(engine: Engine, results: seq<TokenResult>, tokens: seq<Token>, words: seq<string>) {
    && |results| == |tokens| + |words|
    && (forall k :: 0 <= k < |tokens| ==> results[k].token == tokens[k].token)
    && (forall k :: 0 <= k < |words| ==> results[|tokens| + k].token == words[k])
    && (forall k :: 0 <= k < |results| ==>
          && results[k].valid == engine.check(results[k].token)
          && (results[k].valid ==> results[k].suggestions == [])
          && (!results[k].valid ==> results[k].suggestions == engine.suggest(results[k].token)))
  }

  lemma ResultsAreListing(engine: Engine, tokens: seq<Token>, words: seq<string>)
    ensures IsListing(engine, Results(engine, Checked(tokens, words)), tokens, words)
  {
    var results := Results(engine, Checked(tokens, words));
    forall k | 0 <= k < |words|
      ensures results[|tokens| + k].token == words[k]
    {
      assert Checked(tokens, words)[|tokens| + k] == words[k];
    }
    forall k | 0 <= k < |tokens|
      ensures results[k].token == tokens[k].token
    {
      assert Checked(tokens, words)[k] == tokens[k].token;
    }
  }

  method Spellcheck(engine: Engine, text: Option<string>, words: Option<seq<string>>)
    returns (results: Option<seq<TokenResult>>)
    ensures results == match TokensIn(text)
                       case None => None
                       case Some(tokens) => Some(Results(engine, Checked(tokens, WordsIn(words))))
    ensures results == None <==> text.Some? && TokensOf(text.value).None?
    ensures results.Some? ==> IsListing(engine, results.value, if text.Some? then TokensOf(text.value).value else [],
                                        if words.Some? then words.value else [])
  {
    hide TokensOf, IsListing;
    if TokensIn(text).Some? {
      ResultsAreListing(engine, TokensIn(text).value, WordsIn(words));
    }
    var out: seq<TokenResult> := [];
    ghost var ts: seq<Token> := [];
    ghost var ws: seq<string> := [];
    assert Checked([], []) == [] && Results(engine, []) == [];
    hide Checked, Results;
    if text.Some? {
      var tokens := Tokenize(text.value);
      if tokens.None? {
        return None;
      }
      for k := 0 to |tokens.value|
        invariant ts == tokens.value[..k] && out == Results(engine, Checked(ts, []))
      {
        OneMoreText(engine, ts, tokens.value[k]);
        ts := ts + [tokens.value[k]];
        out := out + [ResultOf(engine, tokens.value[k].token)];
      }
      assert ts == tokens.value;
    }
    if words.Some? {
      for k := 0 to |words.value|
        invariant ws == words.value[..k] && out == Results(engine, Checked(ts, ws))
      {
        OneMoreWord(engine, ts, ws, words.value[k]);
        ws := ws + [words.value[k]];
        out := out + [ResultOf(engine, words.value[k])];
      }
      assert ws == words.value;
    }
    return Some(out);
  }

  // ---- /spellcheck/positions --------------------------------------------------------------

  /** Where the text has the token, in order. */
  function PositionsOf(tokens: seq<Token>, x: string): seq<nat> {
    if tokens == [] then []
    else
      var last := tokens[|tokens| - 1];
      PositionsOf(tokens[..|tokens| - 1], x) + if last.token == x then [last.startChar] else []
  }

  function EntryOf(byToken: Accumulators, x: string): PositionAccumulator {
    if x in byToken then byToken[x] else PositionAccumulator([], [])
  }

  /** The map after the given text tokens and words: one entry for each that fails the check. */
  ghost predicate Accumulates(engine: Engine, byToken: Accumulators, tokens: seq<Token>, words: seq<string>) {
    && (forall x :: x in byToken <==> x in Checked(tokens, words) && !engine.check(x))
    && (forall x :: x in byToken ==> byToken[x] == PositionAccumulator(PositionsOf(tokens, x), engine.suggest(x)))
  }

  lemma {:induction false} NoPositions(tokens: seq<Token>, x: string)
    requires forall k :: 0 <= k < |tokens| ==> tokens[k].token != x
    ensures PositionsOf(tokens, x) == []
  {
    if tokens != [] {
      NoPositions(tokens[..|tokens| - 1], x);
    }
  }

  lemma CheckedText(tokens: seq<Token>, x: string)
    ensures x in Checked(tokens, []) <==> exists k :: 0 <= k < |tokens| && tokens[k].token == x
  {
    var checked := Checked(tokens, []);
    assert forall k :: 0 <= k < |tokens| ==> checked[k] == tokens[k].token;
  }

  /** One text token more. */
  lemma TextStep(engine: Engine, byToken: Accumulators, tokens: seq<Token>, t: Token)
    requires Accumulates(engine, byToken, tokens, [])
    ensures Accumulates(engine,
              if engine.check(t.token) then byToken
              else byToken[t.token := PositionAccumulator(EntryOf(byToken, t.token).positions + [t.startChar],
                                                          engine.suggest(t.token))],
              tokens + [t], [])
  {
    assert (tokens + [t])[..|tokens|] == tokens;
    forall x
      ensures x in Checked(tokens + [t], []) <==> x in Checked(tokens, []) || x == t.token
    {
      CheckedText(tokens, x);
      CheckedText(tokens + [t], x);
      if k :| 0 <= k < |tokens| && tokens[k].token == x {
        assert (tokens + [t])[k].token == x;
      }
      assert (tokens + [t])[|tokens|].token == t.token;
    }
    if t.token !in byToken && !engine.check(t.token) {
      CheckedText(tokens, t.token);
      NoPositions(tokens, t.token);
    }
    hide Checked;
  }

  /** One word more: it adds no position. */
  lemma WordStep(engine: Engine, byToken: Accumulators, tokens: seq<Token>, words: seq<string>, w: string)
    requires Accumulates(engine, byToken, tokens, words)
    ensures Accumulates(engine,
              if engine.check(w) then byToken
              else byToken[w := PositionAccumulator(EntryOf(byToken, w).positions, engine.suggest(w))],
              tokens, words + [w])
  {
    forall x
      ensures x in Checked(tokens, words + [w]) <==> x in Checked(tokens, words) || x == w
    {
      assert Checked(tokens, words + [w]) == Checked(tokens, words) + [w];
    }
    if w !in byToken && !engine.check(w) {
      assert Checked(tokens, words) == Checked(tokens, []) + words;
      CheckedText(tokens, w);
      NoPositions(tokens, w);
    }
    hide Checked;
  }

  predicate Reported(results: seq<PositionResult>, x: string) {
    exists i :: 0 <= i < |results| && results[i].token == x
  }

  /** The answer: one result for each distinct token that fails the check. */
  ghost predicate Answers(engine: Engine, results: seq<PositionResult>, tokens: seq<Token>, words: seq<string>) {
    && (forall i, j :: 0 <= i < j < |results| ==> results[i].token != results[j].token)
    && (forall x :: Reported(results, x) <==> x in Checked(tokens, words) && !engine.check(x))
    && (forall i :: 0 <= i < |results| ==>
          && results[i].positions == PositionsOf(tokens, results[i].token)
          && results[i].suggestions == engine.suggest(results[i].token))
  }

  /** `by_token.into_iter().map(...).collect()`, on the entries in whatever order they come. */
  function Rendered(entries: seq<(string, PositionAccumulator)>): seq<PositionResult> {
    seq(|entries|, i requires 0 <= i < |entries| =>
      PositionResult(entries[i].0, entries[i].1.positions, entries[i].1.suggestions))
  }

  method SpellcheckPositions(engine: Engine, text: Option<string>, words: Option<seq<string>>)
    returns (results: Option<seq<PositionResult>>)
    ensures match TokensIn(text)
            case None => results == None
            case Some(tokens) => results.Some? && Answers(engine, results.value, tokens, WordsIn(words))
  {
    hide TokensOf, Checked, PositionsOf;
    var byToken: Accumulators := map[];
    ghost var ts: seq<Token> := [];
    ghost var ws: seq<string> := [];
    NothingAccumulates(engine);
    if text.Some? {
      var tokens := Tokenize(text.value);
      if tokens.None? {
        return None;
      }
      for k := 0 to |tokens.value|
        invariant ts == tokens.value[..k] && Accumulates(engine, byToken, ts, [])
      {
        var token := tokens.value[k];
        TextStep(engine, byToken, ts, token);
        ts := ts + [token];
        if !engine.check(token.token) {
          var entry := EntryOf(byToken, token.token);
          entry := entry.(positions := entry.positions + [token.startChar]);
          if entry.suggestions == [] {
            entry := entry.(suggestions := engine.suggest(token.token));
          }
          byToken := byToken[token.token := entry];
        }
      }
      assert ts == tokens.value;
    }
    if words.Some? {
      for k := 0 to |words.value|
        invariant ws == words.value[..k] && Accumulates(engine, byToken, ts, ws)
      {
        var word := words.value[k];
        WordStep(engine, byToken, ts, ws, word);
        ws := ws + [word];
        if !engine.check(word) {
          var entry := EntryOf(byToken, word);
          if entry.suggestions == [] {
            entry := entry.(suggestions := engine.suggest(word));
          }
          byToken := byToken[word := entry];
        }
      }
      assert ws == words.value;
    }
    var entries := MapSums.Collect(byToken);
    RenderedAnswers(engine, byToken, entries, ts, ws);
    return Some(Rendered(entries));
  }

  lemma NothingAccumulates(engine: Engine)
    ensures Accumulates(engine, map[], [], [])
  {
    assert Checked([], []) == [];
  }

  lemma RenderedAnswers(engine: Engine, byToken: Accumulators, entries: seq<(string, PositionAccumulator)>,
                        tokens: seq<Token>, words: seq<string>)
    requires Accumulates(engine, byToken, tokens, words) && MapSums.Lists(entries, byToken)
    ensures Answers(engine, Rendered(entries), tokens, words)
  {
    hide Checked, PositionsOf;
    var out := Rendered(entries);
    forall x
      ensures Reported(out, x) <==> x in byToken
    {
      if x in byToken {
        var i :| 0 <= i < |entries| && entries[i].0 == x;
        assert out[i].token == x;
      }
    }
  }

  // ---- The endpoints agree ----------------------------------------------------------------------

  predicate HasTokenAt(tokens: seq<Token>, x: string, p: nat) {
    exists k :: 0 <= k < |tokens| && tokens[k].token == x && tokens[k].startChar == p
  }

  lemma OneMoreToken(tokens: seq<Token>, t: Token, x: string, p: nat)
    ensures HasTokenAt(tokens + [t], x, p) <==> HasTokenAt(tokens, x, p) || (t.token == x && t.startChar == p)
  {
    var more := tokens + [t];
    assert more[|tokens|] == t && forall k :: 0 <= k < |tokens| ==> more[k] == tokens[k];
  }

  lemma {:induction false} PositionsMeaning(tokens: seq<Token>, x: string, p: nat)
    ensures p in PositionsOf(tokens, x) <==> HasTokenAt(tokens, x, p)
    decreases |tokens|
  {
    hide HasTokenAt;
    if tokens != [] {
      var (init, last) := (tokens[..|tokens| - 1], tokens[|tokens| - 1]);
      PositionsMeaning(init, x, p);
      OneMoreToken(init, last, x, p);
      assert tokens == init + [last];
    } else {
      assert !HasTokenAt([], x, p) by { NoTokens(x, p); }
    }
  }

  lemma NoTokens(x: string, p: nat)
    ensures !HasTokenAt([], x, p)
  {
  }

  lemma {:induction false} PositionsIncrease(tokens: seq<Token>, x: string)
    requires forall k, l :: 0 <= k < l < |tokens| ==> tokens[k].startChar < tokens[l].startChar
    ensures var ps := PositionsOf(tokens, x); forall i, j :: 0 <= i < j < |ps| ==> ps[i] < ps[j]
    decreases |tokens|
  {
    if tokens != [] {
      var (init, last) := (tokens[..|tokens| - 1], tokens[|tokens| - 1]);
      PositionsIncrease(init, x);
      forall i | 0 <= i < |PositionsOf(init, x)|
        ensures PositionsOf(init, x)[i] < last.startChar
      {
        PositionsMeaning(init, x, PositionsOf(init, x)[i]);
      }
    }
  }

  /** `x` is the text of a maximal run, punctuation around it aside. */
  ghost predicate StandsAt(text: string, r: Run, x: string) { IsRun(text, r) && IsStripped(Raw(text, r), x) }

  /** `x` stands in the text as the maximal run starting at `p`. */
  ghost predicate OccursAt(text: string, x: string, p: nat) { exists r: Run :: r.start == p && StandsAt(text, r, x) }

  lemma RunOfToken(text: string, k: nat) returns (r: Run)
    requires TokensOf(text).Some? && k < |TokensOf(text).value|
    ensures r.start == TokensOf(text).value[k].startChar && StandsAt(text, r, TokensOf(text).value[k].token)
  {
    hide TokensOf, IsStripped, RunsFrom, IsSpace, Utf8Length;
    TokensAreRuns(text);
    r := RunsFrom(text, 0)[k];
    assert r in RunsFrom(text, 0) && TokenAt(text, TokensOf(text).value[k], r);
  }

  lemma TokenOfRun(text: string, r: Run, x: string) returns (k: nat)
    requires TokensOf(text).Some? && StandsAt(text, r, x)
    ensures k < |TokensOf(text).value|
    ensures TokensOf(text).value[k].startChar == r.start && TokensOf(text).value[k].token == x
  {
    hide TokensOf, IsStripped, RunsFrom, IsSpace, Utf8Length;
    TokensAreRuns(text);
    assert r in RunsFrom(text, 0);
    k :| k < |RunsFrom(text, 0)| && RunsFrom(text, 0)[k] == r;
    assert TokenAt(text, TokensOf(text).value[k], r);
    StrippedIsUnique(Raw(text, r), TokensOf(text).value[k].token, x);
  }

  lemma TextPositionsIncrease(text: string, x: string)
    requires TokensOf(text).Some?
    ensures var ps := PositionsOf(TokensOf(text).value, x); forall i, j :: 0 <= i < j < |ps| ==> ps[i] < ps[j]
  {
    hide TokensOf, IsStripped, PositionsOf, RunsFrom, IsSpace, Utf8Length, IsRun;
    TokensAreRuns(text);
    var (runs, tokens) := (RunsFrom(text, 0), TokensOf(text).value);
    assert forall k :: 0 <= k < |runs| ==> tokens[k].startChar == runs[k].start && runs[k] in runs;
    PositionsIncrease(tokens, x);
  }

  lemma PositionsAreOccurrences(text: string, x: string, p: nat)
    requires TokensOf(text).Some?
    ensures p in PositionsOf(TokensOf(text).value, x) <==> OccursAt(text, x, p)
  {
    hide TokensOf, PositionsOf, StandsAt;
    var tokens := TokensOf(text).value;
    PositionsMeaning(tokens, x, p);
    if k :| 0 <= k < |tokens| && tokens[k].token == x && tokens[k].startChar == p {
      var r := RunOfToken(text, k);
    }
    if r: Run :| r.start == p && StandsAt(text, r, x) {
      var k := TokenOfRun(text, r, x);
    }
  }

  predicate MarkedInvalid(results: seq<TokenResult>, x: string) {
    exists k :: 0 <= k < |results| && results[k].token == x && !results[k].valid
  }

  /** `/spellcheck/positions` returns each token that `/spellcheck` marks invalid exactly once, with
      the same suggestions. */
  lemma EndpointsAgree(engine: Engine, tokens: seq<Token>, words: seq<string>, positioned: seq<PositionResult>)
    requires Answers(engine, positioned, tokens, words)
    ensures var checked := Results(engine, Checked(tokens, words));
            && (forall x :: MarkedInvalid(checked, x) <==> Reported(positioned, x))
            && (forall i, j :: 0 <= i < j < |positioned| ==> positioned[i].token != positioned[j].token)
            && (forall k, i :: 0 <= k < |checked| && 0 <= i < |positioned| && checked[k].token == positioned[i].token ==>
                  checked[k].suggestions == positioned[i].suggestions)
  {
    var (all, checked) := (Checked(tokens, words), Results(engine, Checked(tokens, words)));
    hide Checked, PositionsOf;
    forall x
      ensures MarkedInvalid(checked, x) <==> x in all && !engine.check(x)
    {
      if x in all && !engine.check(x) {
        var k :| 0 <= k < |all| && all[k] == x;
        assert checked[k].token == x;
      }
    }
    forall i | 0 <= i < |positioned|
      ensures !engine.check(positioned[i].token)
    {
      assert Reported(positioned, positioned[i].token);
    }
  }

  /** Its positions are the strictly increasing starts of the token's occurrences in the text;
      words add none. */
  lemma PositionsComeFromText(engine: Engine, text: Option<string>, words: seq<string>,
                              positioned: seq<PositionResult>, i: nat, p: nat)
    requires TokensIn(text).Some? && Answers(engine, positioned, TokensIn(text).value, words) && i < |positioned|
    ensures p in positioned[i].positions <==> text.Some? && OccursAt(text.value, positioned[i].token, p)
    ensures var ps := positioned[i].positions; forall m, n :: 0 <= m < n < |ps| ==> ps[m] < ps[n]
  {
    hide TokensOf, PositionsOf, OccursAt, Checked, Reported;
    match text {
      case Some(t) =>
        PositionsAreOccurrences(t, positioned[i].token, p);
        TextPositionsIncrease(t, positioned[i].token);
      case None => NoPositions([], positioned[i].token);
    }
  }
}
