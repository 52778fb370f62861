/**
 * The parts of the generation gateway (services/geminiService.ts) that are
 * logic rather than calls to the generative-AI service: extracting the JSON
 * array from a free-form reply, turning grounding metadata into citation
 * sources, and the mapping from thrown errors to user-facing messages.
 *
 * The service call is represented by its outcome (ApiResponse) and
 * JSON.parse by an oracle `parse` that either yields question/answer pairs
 * or fails, as JSON.parse does with a SyntaxError.
 */
module GeminiService {
  import opened Types

  // ---------------------------------------------------------------------------
  // Whitespace and trimming (String.prototype.trim and the regex class \s)
  // ---------------------------------------------------------------------------

  /** The characters matched by `\s` and removed by `trim()`: WhiteSpace and LineTerminator. */
  predicate IsWhitespace(c: char) {
    || c == '\t' || c == '\n' || c == '\U{000B}' || c == '\U{000C}' || c == '\r'
    || c == ' ' || c == '\U{00A0}' || c == '\U{1680}'
    || ('\U{2000}' <= c <= '\U{200A}')
    || c == '\U{2028}' || c == '\U{2029}' || c == '\U{202F}' || c == '\U{205F}'
    || c == '\U{3000}' || c == '\U{FEFF}'
  }

  predicate AllWhitespace(s: string) {
    forall k :: 0 <= k < |s| ==> IsWhitespace(s[k])
  }

  /** The number of whitespace characters at the front of `s`. */
  function LeadingWhitespace(s: string): (n: nat)
    ensures n <= |s|
    ensures AllWhitespace(s[..n])
    ensures n < |s| ==> !IsWhitespace(s[n])
  {
    if s == [] || !IsWhitespace(s[0]) then 0
    else
      var m := LeadingWhitespace(s[1..]);
      assert s[1..][..m] == s[1..m + 1];
      m + 1
  }

  /** The number of whitespace characters at the end of `s`. */
  function TrailingWhitespace(s: string): (n: nat)
    ensures n <= |s|
    ensures AllWhitespace(s[|s| - n..])
    ensures n < |s| ==> !IsWhitespace(s[|s| - n - 1])
  {
    if s == [] || !IsWhitespace(s[|s| - 1]) then 0
    else
      var init := s[..|s| - 1];
      var m := TrailingWhitespace(init);
      assert s[|s| - 1 - m..] == init[|init| - m..] + [s[|s| - 1]];
      assert AllWhitespace(init[|init| - m..]);
      m + 1
  }

  /** `s` without its leading whitespace (the regex `^\s*` removed). */
  function TrimStart(s: string): string {
    s[LeadingWhitespace(s)..]
  }

  /** `s.trim()`: both leading and trailing whitespace removed. */
  function Trim(s: string): (r: string)
    ensures |r| <= |s|
    ensures r == [] || (!IsWhitespace(r[0]) && !IsWhitespace(r[|r| - 1]))
    ensures AllWhitespace(s) <==> r == []
  {
    var t := TrimStart(s);
    var r := t[..|t| - TrailingWhitespace(t)];
    assert AllWhitespace(s) ==> LeadingWhitespace(s) == |s|;
    assert r == [] ==> AllWhitespace(s) by {
      if r == [] {
        var n := LeadingWhitespace(s);
        forall k | 0 <= k < |s| ensures IsWhitespace(s[k]) {
          assert s[k] == s[..n][k];
        }
      }
    }
    r
  }

  // ---------------------------------------------------------------------------
  // cleanJsonString (services/geminiService.ts:25-32)
  // ---------------------------------------------------------------------------

  /** Index of the first occurrence of `c`, as `indexOf`. */
  function IndexOf(s: string, c: char): (r: Option<nat>)
    ensures r.None? <==> c !in s
    ensures r.Some? ==> r.value < |s| && s[r.value] == c && c !in s[..r.value]
  {
    if s == [] then None
    else if s[0] == c then Some(0)
    else match IndexOf(s[1..], c)
      case None => None
      case Some(k) =>
        assert s[..k + 1] == [s[0]] + s[1..][..k];
        Some(k + 1)
  }

  /** Index of the last occurrence of `c`, as `lastIndexOf`. */
  function LastIndexOf(s: string, c: char): (r: Option<nat>)
    ensures r.None? <==> c !in s
    ensures r.Some? ==> r.value < |s| && s[r.value] == c && c !in s[r.value + 1..]
  {
    if s == [] then None
    else if s[|s| - 1] == c then Some(|s| - 1)
    else
      var r := LastIndexOf(s[..|s| - 1], c);
      assert s == s[..|s| - 1] + [s[|s| - 1]];
      if r.Some? then
        assert s[r.value + 1..] == s[..|s| - 1][r.value + 1..] + [s[|s| - 1]];
        r
      else r
  }

  /** Some `[` has a `]` somewhere after it: the regex `\[[\s\S]*\]` matches. */
  predicate HasBracketSpan(s: string) {
    exists i, j :: 0 <= i < j < |s| && s[i] == '[' && s[j] == ']'
  }

  /**
   * The span the regex selects, described the way a backtracking matcher
   * finds it: `i` is the leftmost position from which a match exists, and
   * the greedy `[\s\S]*` makes `j` the rightmost `]` after it.
   */
  predicate IsGreedyBracketMatch(s: string, i: nat, j: nat) {
    && i < j < |s| && s[i] == '[' && s[j] == ']'
    && (forall p :: 0 <= p < i && s[p] == '[' ==> forall e :: p < e < |s| ==> s[e] != ']')
    && (forall e :: j < e < |s| ==> s[e] != ']')
  }

  /** `str.trim().replace(/^```json\s*\/, '').replace(/```$/, '')` on an already trimmed string. */
  function StripFence(t: string): (r: string)
    ensures |r| <= |t|
    ensures !("```json" <= t) && !(|t| >= 3 && t[|t| - 3..] == "```") ==> r == t
  {
    var u := if "```json" <= t then TrimStart(t[7..]) else t;
    if |u| >= 3 && u[|u| - 3..] == "```" then u[..|u| - 3] else u
  }

  /** Extracts the JSON array text from a model reply (cleanJsonString). */
  function CleanJsonString(s: string): (r: string)
    ensures |r| <= |s|
    ensures HasBracketSpan(s) ==> |r| >= 2 && r[0] == '[' && r[|r| - 1] == ']'
  {
    match (IndexOf(s, '['), LastIndexOf(s, ']'))
    case (Some(i), Some(j)) =>
      if i < j then s[i..j + 1] else StripFence(Trim(s))
    case _ =>
      StripFence(Trim(s))
  }

  /** The bracket case returns exactly the span from the first `[` to the last `]`. */
  lemma CleanTakesGreedyMatch(s: string, i: nat, j: nat)
    requires IsGreedyBracketMatch(s, i, j)
    ensures CleanJsonString(s) == s[i..j + 1]
  {
    var fi := IndexOf(s, '[');
    var lj := LastIndexOf(s, ']');
    assert s[i] == '[';
    assert s[j] == ']';
    assert fi.Some? && lj.Some?;
  }

  /** Whenever the regex matches, a greedy match span exists (GreedyMatchUnique: only one). */
  lemma GreedyMatchExists(s: string) returns (i: nat, j: nat)
    requires HasBracketSpan(s)
    ensures IsGreedyBracketMatch(s, i, j)
  {
    var a, b :| 0 <= a < b < |s| && s[a] == '[' && s[b] == ']';
    var fi := IndexOf(s, '[');
    var lj := LastIndexOf(s, ']');
    assert s[..b + 1][a] == '[';
    i := fi.value;
    j := lj.value;

    forall e | j < e < |s|
      ensures s[e] != ']'
    {
      assert s[j + 1..][e - j - 1] == s[e];
    }
  }

  /** The greedy match span is unique: the leftmost start and the rightmost end are both determined. */
  lemma GreedyMatchUnique(s: string, i: nat, j: nat, i': nat, j': nat)
    requires IsGreedyBracketMatch(s, i, j) && IsGreedyBracketMatch(s, i', j')
    ensures i == i' && j == j'
  {
  }

  /** `r` occurs in `s` starting at index `i`. */
  predicate OccursAt(r: string, s: string, i: nat) {
    i + |r| <= |s| && s[i..i + |r|] == r
  }

  /** On a bracket span, cleaning yields a substring of the input that still holds the span. */
  lemma CleanBracketShape(s: string)
    requires HasBracketSpan(s)
    ensures HasBracketSpan(CleanJsonString(s))
    ensures exists i :: OccursAt(CleanJsonString(s), s, i)
  {
    var i, j := GreedyMatchExists(s);
    CleanTakesGreedyMatch(s, i, j);
    var r := s[i..j + 1];
    assert r[0] == '[' && r[j - i] == ']';
    assert OccursAt(r, s, i);
  }

  /** Cleaning an already extracted array text gives it back unchanged. */
  lemma {:induction false} CleanIdempotent(s: string)
    requires HasBracketSpan(s)
    ensures CleanJsonString(CleanJsonString(s)) == CleanJsonString(s)
  {
    var r := CleanJsonString(s);
    assert |r| >= 2 && r[0] == '[' && r[|r| - 1] == ']';
    CleanKeepsArrayText(r);
  }

  /** A text that opens with `[` and closes with `]` is its own bracket span. */
  lemma CleanKeepsArrayText(r: string)
    requires |r| >= 2 && r[0] == '[' && r[|r| - 1] == ']'
    ensures CleanJsonString(r) == r
  {
    assert IndexOf(r, '[') == Some(0);
    assert LastIndexOf(r, ']') == Some(|r| - 1);
    assert r[0..|r|] == r;
  }

  /** trim() removes exactly the whitespace padding around a text that starts and ends with non-whitespace. */
  lemma TrimOfPadded(lead: string, x: string, trail: string)
    requires AllWhitespace(lead) && AllWhitespace(trail)
    requires x != [] && !IsWhitespace(x[0]) && !IsWhitespace(x[|x| - 1])
    ensures Trim(lead + x + trail) == x
  {
    var s := lead + x + trail;
    assert LeadingWhitespace(s) == |lead| by {
      var n := LeadingWhitespace(s);
      assert s[|lead|] == x[0];
    }
    var t := TrimStart(s);
    assert t == x + trail;
    assert TrailingWhitespace(t) == |trail| by {
      var n := TrailingWhitespace(t);
      assert t[|x| - 1] == x[|x| - 1];
    }
  }

  /** The `^\s*` step removes exactly a whitespace prefix followed by a non-whitespace character. */
  lemma TrimStartOfPadded(gap: string, x: string)
    requires AllWhitespace(gap)
    requires x != [] && !IsWhitespace(x[0])
    ensures TrimStart(gap + x) == x
  {
    var s := gap + x;
    var n := LeadingWhitespace(s);
    assert s[|gap|] == x[0];
  }

  /** Whitespace and fence characters contain no bracket, so a fence around a bracket-free body has none. */
  lemma FenceAddsNoBracket(lead: string, gap: string, body: string, trail: string)
    requires AllWhitespace(lead) && AllWhitespace(gap) && AllWhitespace(trail)
    requires !HasBracketSpan(body)
    ensures !HasBracketSpan(lead + "```json" + gap + body + "```" + trail)
  {
    var s := lead + "```json" + gap + body + "```" + trail;
  }

  /** Without a bracket span the regex finds nothing and the trim-and-strip fallback applies. */
  lemma CleanWithoutSpan(s: string)
    requires !HasBracketSpan(s)
    ensures CleanJsonString(s) == StripFence(Trim(s))
  {
    var fi := IndexOf(s, '[');
    var lj := LastIndexOf(s, ']');
  }

  /** Without a bracket span, a reply fenced as a ```json block yields the fenced payload. */
  lemma FencedReplyYieldsPayload(lead: string, gap: string, body: string, trail: string)
    requires AllWhitespace(lead) && AllWhitespace(gap) && AllWhitespace(trail)
    requires body == [] || !IsWhitespace(body[0])
    requires !HasBracketSpan(body)
    ensures CleanJsonString(lead + "```json" + gap + body + "```" + trail) == body
  {
    var core := "```json" + gap + body + "```";
    var s := lead + core + trail;
    assert lead + "```json" + gap + body + "```" + trail == s;
    assert CleanJsonString(s) == StripFence(Trim(s)) by {
      FenceAddsNoBracket(lead, gap, body, trail);
      CleanWithoutSpan(s);
    }
    assert Trim(s) == core by {
      assert core[0] == '`' && core[|core| - 1] == '`';
      TrimOfPadded(lead, core, trail);
    }
    assert StripFence(core) == body by {
      StripJsonFence(gap, body);
    }
  }

  /** The fallback's two replacements remove a ```json opener with its whitespace and a closing ```. */
  lemma StripJsonFence(gap: string, body: string)
    requires AllWhitespace(gap)
    requires body == [] || !IsWhitespace(body[0])
    ensures StripFence("```json" + gap + body + "```") == body
  {
    var core := "```json" + gap + body + "```";
    assert core[..7] == "```json";
    var rest := body + "```";
    assert core[7..] == gap + rest;
    assert rest[0] == if body == [] then '`' else body[0];
    TrimStartOfPadded(gap, rest);
    assert rest[|rest| - 3..] == "```";
    assert rest[..|rest| - 3] == body;
  }

  /** With only an opening fence, the first replacement removes it with its whitespace and the second finds nothing. */
  lemma StripOpeningFenceOnly(gap: string, body: string)
    requires AllWhitespace(gap)
    requires body == [] || !IsWhitespace(body[0])
    requires !(|body| >= 3 && body[|body| - 3..] == "```")
    ensures StripFence("```json" + gap + body) == body
  {
    var t := "```json" + gap + body;
    assert t[..7] == "```json";
    assert t[7..] == gap + body;
    if body == [] {
      assert gap + body == gap;
      var n := LeadingWhitespace(gap);
      assert n == |gap|;
    } else {
      TrimStartOfPadded(gap, body);
    }
  }

  /** With only a closing fence, the first replacement finds nothing and the second removes the fence. */
  lemma StripClosingFenceOnly(body: string)
    requires !("```json" <= body + "```")
    ensures StripFence(body + "```") == body
  {
    var t := body + "```";
    assert t[|t| - 3..] == "```";
    assert t[..|t| - 3] == body;
  }

  // ---------------------------------------------------------------------------
  // Grounding sources (services/geminiService.ts:93-97)
  // ---------------------------------------------------------------------------

  /** `chunk.web`, whose `uri` and `title` may be absent. */
  datatype WebRef = WebRef(uri: Option<string>, title: Option<string>)

  /** One entry of `groundingMetadata.groundingChunks`; `web` may be absent. */
  datatype GroundingChunk = GroundingChunk(web: Option<WebRef>)

  /** `x || ''` on an optional string: absent and empty both give "". */
  function OrEmpty(x: Option<string>): string {
    if x.Some? then x.value else ""
  }

  /** The `map` step: `{ uri: s.web?.uri || '', title: s.web?.title || '' }`. */
  function ToSource(chunk: GroundingChunk): (r: Source)
    ensures r.uri != "" <==> chunk.web.Some? && chunk.web.value.uri.Some? && chunk.web.value.uri.value != ""
    ensures r.uri != "" ==> r.uri == chunk.web.value.uri.value
    ensures chunk.web.Some? && chunk.web.value.title.Some? ==> r.title == chunk.web.value.title.value
    ensures chunk.web.None? || chunk.web.value.title.None? ==> r.title == ""
  {
    match chunk.web
    case None => Source("", "")
    case Some(w) => Source(OrEmpty(w.uri), OrEmpty(w.title))
  }

  /** The number of chunks whose mapped uri is non-empty. */
  function CountWithUri(chunks: seq<GroundingChunk>): nat {
    if chunks == [] then 0
    else (if ToSource(chunks[0]).uri != "" then 1 else 0) + CountWithUri(chunks[1..])
  }

  /** The `map(...).filter(s => s.uri)` chain. */
  function SourcesWithUri(chunks: seq<GroundingChunk>): (r: seq<Source>)
    ensures |r| == CountWithUri(chunks) <= |chunks|
    ensures forall s :: s in r ==> s.uri != ""
    ensures forall k :: 0 <= k < |chunks| && ToSource(chunks[k]).uri != "" ==> ToSource(chunks[k]) in r
  {
    if chunks == [] then []
    else
      var rest := SourcesWithUri(chunks[1..]);
      assert forall k :: 1 <= k < |chunks| ==> chunks[k] == chunks[1..][k - 1];
      var src := ToSource(chunks[0]);
      if src.uri != "" then [src] + rest else rest
  }

  /**
   * Source extraction keeps the order of the chunks: extracting from two
   * consecutive runs of chunks is extracting from each run and concatenating.
   */
  lemma {:induction false} SourcesKeepOrder(a: seq<GroundingChunk>, b: seq<GroundingChunk>)
    ensures SourcesWithUri(a + b) == SourcesWithUri(a) + SourcesWithUri(b)
  {
    if a != [] {
      assert (a + b)[1..] == a[1..] + b;
      SourcesKeepOrder(a[1..], b);
      var head := if ToSource(a[0]).uri != "" then [ToSource(a[0])] else [];
      assert SourcesWithUri(a) == head + SourcesWithUri(a[1..]);
      assert SourcesWithUri(a + b) == head + SourcesWithUri(a[1..] + b);
    } else {
      assert a + b == b;
    }
  }

  /** A single chunk is kept, mapped, exactly when its uri is non-empty. */
  lemma SourceOfOneChunk(c: GroundingChunk)
    ensures SourcesWithUri([c]) == if ToSource(c).uri != "" then [ToSource(c)] else []
  {
    assert [c][1..] == [];
  }

  /** `response.candidates?.[0]?.groundingMetadata?.groundingChunks || []`, mapped and filtered. */
  function ExtractSources(rawChunks: Option<seq<GroundingChunk>>): (r: seq<Source>)
    ensures rawChunks.None? ==> r == []
    ensures rawChunks.Some? ==> |r| <= |rawChunks.value|
    ensures forall s :: s in r ==> s.uri != ""
    ensures rawChunks.Some? ==> r == SourcesWithUri(rawChunks.value)
  {
    SourcesWithUri(if rawChunks.Some? then rawChunks.value else [])
  }

  // ---------------------------------------------------------------------------
  // The two generation entry points and their catch blocks
  // ---------------------------------------------------------------------------

  /** The errors the two catch blocks re-throw, one per distinct message. */
  datatype GenerationError = TextGenerationFailed | InvalidFormat | SearchGenerationFailed

  /** The message of the Error each catch block throws. */
  function Message(e: GenerationError): (m: string)
    ensures |m| == MessageLength(e)
  {
    match e
    case TextGenerationFailed => TextFailedMessage
    case InvalidFormat => InvalidFormatMessage
    case SearchGenerationFailed => SearchFailedMessage
  }

  const TextFailedMessage: string :=
    "Impossible de générer les fiches à partir du texte. Veuillez vérifier le contenu et réessayer."
  const InvalidFormatMessage: string :=
    "L'IA a retourné un format invalide. Veuillez essayer une autre recherche."
  const SearchFailedMessage: string :=
    "Impossible de générer les fiches à partir de la recherche. Veuillez réessayer."

  /** The lengths of the three messages, which are pairwise different. */
  function MessageLength(e: GenerationError): nat {
    match e
    case TextGenerationFailed => 94
    case InvalidFormat => 73
    case SearchGenerationFailed => 78
  }

  /** The messages of the errors thrown inside the `try` blocks on an empty reply. */
  const TextEmptyMessage: string :=
    "La réponse de l'API était vide. Le contenu est peut-être inapproprié ou non pertinent."
  const SearchEmptyMessage: string :=
    "L'API n'a retourné aucune donnée. Le sujet est peut-être trop obscur ou la requête a échoué."

  /** What a `try` block threw: a SyntaxError (from JSON.parse, or from the SDK itself), or any other Error. */
  datatype Thrown = SyntaxError | Error(message: string)

  /**
   * What the service call produced: a rejected promise with the value it
   * threw, or a reply whose `text` may be absent.
   */
  datatype ApiResponse =
    | ApiError(thrown: Thrown)
    | ApiReply(text: Option<string>, groundingChunks: Option<seq<GroundingChunk>>)

  /** The cards and sources a successful generation returns. */
  datatype Generated = Generated(flashcards: seq<Flashcard>, sources: seq<Source>)

  /** How a `try` block ended. */
  datatype Attempt = Returned(result: Generated) | Threw(thrown: Thrown)

  /** A reply with text whose trimmed form is non-empty and JSON.parse accepts. */
  predicate TextReplyParses(response: ApiResponse, parse: string -> Option<seq<Flashcard>>) {
    && response.ApiReply? && response.text.Some? && Trim(response.text.value) != ""
    && parse(Trim(response.text.value)).Some?
  }

  /** The `try` block of generateFromText; `.trim()` on an absent text throws a TypeError. */
  function TextAttempt(response: ApiResponse, parse: string -> Option<seq<Flashcard>>): (r: Attempt)
    ensures r.Returned? ==>
      && response.ApiReply? && response.text.Some? && Trim(response.text.value) != ""
      && r.result.sources == []
      && Some(r.result.flashcards) == parse(Trim(response.text.value))
    ensures TextReplyParses(response, parse) ==> r.Returned?
  {
    match response
    case ApiError(e) => Threw(e)
    case ApiReply(text, _) =>
      if text.None? then Threw(Error("response.text is undefined"))
      else
        var jsonText := Trim(text.value);
        if jsonText == "" then Threw(Error(TextEmptyMessage))
        else match parse(jsonText)
          case None => Threw(SyntaxError)
          case Some(cards) => Returned(Generated(cards, []))
  }

  /** The catch block of generateFromText: every failure gets the same message. */
  function TextCatch(e: Thrown): (m: GenerationError)
    ensures m != InvalidFormat && m != SearchGenerationFailed
  {
    TextGenerationFailed
  }

  /** generateFlashcardsFromText as its caller sees it. */
  function GenerateFromText(response: ApiResponse, parse: string -> Option<seq<Flashcard>>): (r: Result<Generated, GenerationError>)
    ensures r.Failure? ==> r.error == TextGenerationFailed
    ensures r.Success? ==> r.value.sources == []
    ensures r.Success? <==> TextReplyParses(response, parse)
    ensures r.Success? ==>
      response.ApiReply? && response.text.Some? && Some(r.value.flashcards) == parse(Trim(response.text.value))
  {
    match TextAttempt(response, parse)
    case Returned(g) => Success(g)
    case Threw(e) => Failure(TextCatch(e))
  }

  /** A non-empty reply whose cleaned text JSON.parse accepts. */
  predicate ParsableReply(response: ApiResponse, parse: string -> Option<seq<Flashcard>>) {
    && response.ApiReply? && response.text.Some? && response.text.value != ""
    && parse(CleanJsonString(response.text.value)).Some?
  }

  /** A non-empty reply whose cleaned text JSON.parse rejects. */
  predicate UnparsableReply(response: ApiResponse, parse: string -> Option<seq<Flashcard>>) {
    && response.ApiReply? && response.text.Some? && response.text.value != ""
    && parse(CleanJsonString(response.text.value)).None?
  }

  /** The search `try` block ends in a SyntaxError: the call itself raised one, or the cleaned reply does not parse. */
  predicate SyntaxErrorRaised(response: ApiResponse, parse: string -> Option<seq<Flashcard>>) {
    (response.ApiError? && response.thrown.SyntaxError?) || UnparsableReply(response, parse)
  }

  /** The `try` block of generateFromSearch. */
  function SearchAttempt(response: ApiResponse, parse: string -> Option<seq<Flashcard>>): (r: Attempt)
    ensures r.Returned? <==> ParsableReply(response, parse)
    ensures r.Returned? ==>
      && response.ApiReply? && response.text.Some?
      && r.result.sources == ExtractSources(response.groundingChunks)
      && Some(r.result.flashcards) == parse(CleanJsonString(response.text.value))
    ensures r.Threw? && r.thrown.SyntaxError? ==> SyntaxErrorRaised(response, parse)
    ensures SyntaxErrorRaised(response, parse) ==> r.Threw? && r.thrown.SyntaxError?
  {
    match response
    case ApiError(e) => Threw(e)
    case ApiReply(text, chunks) =>
      if text.None? || text.value == "" then Threw(Error(SearchEmptyMessage))
      else match parse(CleanJsonString(text.value))
        case None => Threw(SyntaxError)
        case Some(cards) => Returned(Generated(cards, ExtractSources(chunks)))
  }

  /** The catch block of generateFromSearch: a SyntaxError is an invalid format, all else a failure. */
  function SearchCatch(e: Thrown): (m: GenerationError)
    ensures m == InvalidFormat <==> e.SyntaxError?
    ensures m != TextGenerationFailed
  {
    if e.SyntaxError? then InvalidFormat else SearchGenerationFailed
  }

  /** generateFlashcardsFromSearch as its caller sees it. */
  function GenerateFromSearch(response: ApiResponse, parse: string -> Option<seq<Flashcard>>): (r: Result<Generated, GenerationError>)
    ensures r.Failure? ==> r.error == InvalidFormat || r.error == SearchGenerationFailed
    ensures r.Failure? && r.error == InvalidFormat ==> SyntaxErrorRaised(response, parse)
    ensures SyntaxErrorRaised(response, parse) ==> r.Failure? && r.error == InvalidFormat
    ensures r.Success? ==> ParsableReply(response, parse)
    ensures ParsableReply(response, parse) ==> r.Success?
    ensures r.Success? ==> response.ApiReply? && response.text.Some?
    ensures r.Success? ==> r.value.sources == ExtractSources(response.groundingChunks)
    ensures r.Success? ==> Some(r.value.flashcards) == parse(CleanJsonString(response.text.value))
  {
    match SearchAttempt(response, parse)
    case Returned(g) => Success(g)
    case Threw(e) => Failure(SearchCatch(e))
  }
}
