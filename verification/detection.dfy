/**
 * What `detectChessPosition` does once the vision service has answered: the
 * side-to-move override of a structured answer, the pattern fallback for an
 * unstructured one, and the errors it throws. The service itself, `JSON.parse`
 * and the two regular expressions are not modelled; their outcomes are inputs.
 */
module Detection {
  import opened Wrappers
  import opened JsText

  /** The side used when the answer reports none (or an empty one). */
  const DefaultSide: string := "w"

  /** The message of the error thrown when no API key is configured. */
  const MissingKeyMessage: string := "GEMINI_API_KEY not set in .env file"

  /** `parsed.sideToMove || 'w'`: the reported side unless it is absent or empty. */
  function EffectiveSide(sideToMove: Option<string>): (side: string)
    ensures side != ""
    ensures sideToMove.Some? && sideToMove.value != "" ==> side == sideToMove.value
    ensures sideToMove.None? || sideToMove.value == "" ==> side == DefaultSide
  {
    match sideToMove
    case Some(s) => if s != "" then s else DefaultSide
    case None => DefaultSide
  }

  /**
   * Replaces the second space-separated field of a position string with the
   * effective side to move; a string with a single field is kept as it is.
   * With two fields or more this is a splice: the characters of field 1 are
   * exchanged for the side, and everything before and after them is left
   * exactly as it was.
   */
  function OverrideSideToMove(fen: string, sideToMove: Option<string>): (r: string)
    ensures ' ' !in fen ==> r == fen
    ensures ' ' in fen ==>
              var fields := Split(fen, ' ');
              var start := |fields[0]| + 1;
              var end := start + |fields[1]|;
              && end <= |fen|
              && fen[..start] == fields[0] + [' ']
              && fen[start..end] == fields[1]
              && r == fen[..start] + EffectiveSide(sideToMove) + fen[end..]
    ensures r == "" <==> fen == ""
  {
    var fields := Split(fen, ' ');
    if |fields| >= 2 then
      ReplaceField1Splice(fen, EffectiveSide(sideToMove));
      Join(fields[1 := EffectiveSide(sideToMove)], ' ')
    else fen
  }

  /**
   * With two fields or more, the result has as many fields, its field 1 is the
   * effective side, and every other field is the original one. The side must
   * not itself contain a space, or it would read back as several fields.
   */
  lemma OverrideFields(fen: string, sideToMove: Option<string>)
    requires ' ' in fen
    requires ' ' !in EffectiveSide(sideToMove)
    ensures var before := Split(fen, ' ');
            var after := Split(OverrideSideToMove(fen, sideToMove), ' ');
            && |after| == |before| >= 2
            && after[1] == EffectiveSide(sideToMove)
            && forall i :: 0 <= i < |after| && i != 1 ==> after[i] == before[i]
  {
    var fields := Split(fen, ' ');
    var side := EffectiveSide(sideToMove);
    var updated := fields[1 := side];
    assert forall i :: 0 <= i < |updated| ==> ' ' !in updated[i];
    SplitJoin(updated, ' ');
  }

  /**
   * Joining the fields of a string with field 1 exchanged for `side` splices
   * `side` in place of field 1's characters.
   */
  lemma {:induction false} ReplaceField1Splice(fen: string, side: string)
    requires ' ' in fen
    ensures var fields := Split(fen, ' ');
            var start := |fields[0]| + 1;
            var end := start + |fields[1]|;
            && end <= |fen|
            && fen[..start] == fields[0] + [' ']
            && fen[start..end] == fields[1]
            && Join(fields[1 := side], ' ') == fen[..start] + side + fen[end..]
  {
    var fields := Split(fen, ' ');
    var more := fields[2..];
    var tail := JoinTail(more, ' ');
    assert fields == [fields[0], fields[1]] + more;
    assert fields[1 := side] == [fields[0], side] + more;
    JoinTwoHeads(fields[0], fields[1], more, ' ');
    JoinTwoHeads(fields[0], side, more, ' ');
    JoinSplit(fen, ' ');
    assert fen == (fields[0] + [' ']) + fields[1] + tail;
    SliceThree(fields[0] + [' '], fields[1], tail);
  }

  /** The three parts of a concatenation can be sliced back out of it. */
  lemma SliceThree(a: string, b: string, c: string)
    ensures var s := a + b + c;
            && s[..|a|] == a
            && s[|a|..|a| + |b|] == b
            && s[|a| + |b|..] == c
  {
  }

  /**
   * For a position string of the usual shape (placement, side, then the rest),
   * only the side token changes: `placement w rest` becomes `placement b rest`
   * when the answer reports `b`.
   */
  lemma {:induction false} OverrideReplacesSideToken(
    placement: string, side: string, rest: string, sideToMove: Option<string>)
    requires ' ' !in placement && ' ' !in side
    ensures OverrideSideToMove(placement + [' '] + side + [' '] + rest, sideToMove)
            == placement + [' '] + EffectiveSide(sideToMove) + [' '] + rest
  {
    var fen := placement + [' '] + side + [' '] + rest;
    ReplaceSideToken(placement, side, rest, EffectiveSide(sideToMove));
    assert |Split(fen, ' ')| >= 2;
  }

  /** Field 1 of `placement side rest`, exchanged for `side'`, gives `placement side' rest`. */
  lemma {:induction false} ReplaceSideToken(placement: string, side: string, rest: string, side': string)
    requires ' ' !in placement && ' ' !in side
    ensures var fen := placement + [' '] + side + [' '] + rest;
            && |Split(fen, ' ')| >= 2
            && Join(Split(fen, ' ')[1 := side'], ' ') == placement + [' '] + side' + [' '] + rest
  {
    var fen := placement + [' '] + side + [' '] + rest;
    var more := Split(rest, ' ');
    SplitTwoHeads(placement, side, rest, ' ');
    assert Split(fen, ' ')[1 := side'] == [placement, side'] + more;
    JoinTwoHeads(placement, side', more, ' ');
    JoinSplit(rest, ' ');
    assert JoinTail(more, ' ') == [' '] + rest;
  }

  /**
   * The outcome of `JSON.parse` on the answer: an object whose `fen` and
   * `sideToMove` properties are strings or absent, or a parse failure.
   */
  datatype StructuredParse = Parsed(fen: Option<string>, sideToMove: Option<string>) | NotJson

  /** Where the position pattern matched in the trimmed answer: `text[start..end]`. */
  datatype Span = Span(start: nat, end: nat)

  /** A match is a non-empty stretch of the text (the pattern cannot match nothing). */
  predicate MatchWithin(text: string, m: Option<Span>)
  {
    m.Some? ==> m.value.start < m.value.end <= |text|
  }

  /** Whether the structured path applies: the answer parsed to an object with a `fen` string. */
  predicate UsesStructured(parse: StructuredParse)
  {
    parse.Parsed? && parse.fen.Some?
  }

  /**
   * The answer's position string. A parsed object with a `fen` string gets its
   * side to move overridden. Otherwise (unparseable text, or an object without
   * a `fen` string, on which `fen.split` throws inside the same `try`) the
   * pattern match is returned, or, failing that, the whole trimmed text.
   */
  function ExtractPosition(text: string, parse: StructuredParse, fenMatch: Option<Span>): (fen: string)
    requires MatchWithin(text, fenMatch)
    ensures UsesStructured(parse) ==> fen == OverrideSideToMove(parse.fen.value, parse.sideToMove)
    ensures !UsesStructured(parse) && fenMatch.Some? ==>
              fen != "" && fen == text[fenMatch.value.start..fenMatch.value.end]
    ensures !UsesStructured(parse) && fenMatch.None? ==> fen == text
  {
    if UsesStructured(parse) then OverrideSideToMove(parse.fen.value, parse.sideToMove)
    else if fenMatch.Some? then text[fenMatch.value.start..fenMatch.value.end]
    else text
  }

  /** The answer of the vision service: an error with its message, or text. */
  datatype Reply =
    | Failed(message: string)
    | Answered(raw: string, parse: StructuredParse, fenMatch: Option<Span>)

  /** What detection depends on: the configured API key and the service's reply. */
  datatype Vision = Vision(apiKey: Option<string>, reply: Reply)

  /** The match, if any, lies within the trimmed answer it was searched in. */
  predicate WellFormed(v: Vision)
  {
    match v.reply
    case Answered(raw, _, Some(_)) => MatchWithin(Trim(raw), v.reply.fenMatch)
    case _ => true
  }

  /** `!apiKey`: the key is absent or empty. */
  predicate MissingKey(apiKey: Option<string>)
  {
    apiKey.None? || apiKey.value == ""
  }

  /**
   * `detectChessPosition`: a missing key throws before the service is called,
   * a service error is rethrown, and an answer always yields a string.
   */
  function Detect(v: Vision): (r: Result<string, string>)
    requires WellFormed(v)
    ensures MissingKey(v.apiKey) ==> r == Failure(MissingKeyMessage)
    ensures !MissingKey(v.apiKey) && v.reply.Failed? ==> r == Failure(v.reply.message)
    ensures !MissingKey(v.apiKey) && v.reply.Answered? ==> r.Success?
  {
    if MissingKey(v.apiKey) then Failure(MissingKeyMessage)
    else match v.reply
      case Failed(message) => Failure(message)
      case Answered(raw, parse, fenMatch) => Success(ExtractPosition(Trim(raw), parse, fenMatch))
  }

  /**
   * Detection returns the empty string exactly when the structured path was
   * given an empty `fen`, or when the fallback found no match in an answer
   * that is nothing but white space.
   */
  lemma DetectEmpty(v: Vision)
    requires WellFormed(v)
    requires !MissingKey(v.apiKey) && v.reply.Answered?
    ensures Detect(v) == Success("") <==>
              if UsesStructured(v.reply.parse) then v.reply.parse.fen.value == ""
              else v.reply.fenMatch.None? &&
                   forall k :: 0 <= k < |v.reply.raw| ==> IsWhiteSpace(v.reply.raw[k])
  {
    TrimEmpty(v.reply.raw);
  }

  /**
   * When the structured path does not apply, detection never fails for want of
   * a match: the result is a stretch of the trimmed answer, the whole of it
   * when nothing matched.
   */
  lemma FallbackIsPartOfAnswer(v: Vision)
    requires WellFormed(v)
    requires !MissingKey(v.apiKey) && v.reply.Answered? && !UsesStructured(v.reply.parse)
    ensures var text := Trim(v.reply.raw);
            && Detect(v).Success?
            && (v.reply.fenMatch.None? ==> Detect(v).value == text)
            && (v.reply.fenMatch.Some? ==>
                  Detect(v).value != "" &&
                  Detect(v).value == text[v.reply.fenMatch.value.start..v.reply.fenMatch.value.end])
  {
  }
}
