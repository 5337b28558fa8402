/**
 * The `/upload` handler's decision flow: validate the form, run detection,
 * answer the client, and announce a detected position to the pairing code.
 * Express, multer and socket.io are not modelled; the announcement is recorded
 * as an event addressed to a code.
 */
module Upload {
  import opened Wrappers
  import opened Detection

  const PairingCodeRequired: string := "Pairing code required"
  const NoImageProvided: string := "No image provided"
  const CouldNotDetect: string := "Could not detect chess position"
  const SentToDesktop: string := "Position detected and sent to desktop"

  /** The form fields the handler looks at. */
  datatype Request = Request(pairingCode: Option<string>, hasImage: bool)

  /** The JSON body of the reply: `{error}` or `{success: true, fen, message}`. */
  datatype Body = ErrorBody(error: string) | SuccessBody(fen: string, message: string)

  datatype Response = Response(status: int, body: Body)

  /** A `position-detected` event sent to the sockets of a pairing code. */
  datatype Emission = PositionDetected(code: string, fen: string)

  /** The reply together with the events emitted while handling the request. */
  datatype Outcome = Outcome(response: Response, emissions: seq<Emission>)

  /** `!pairingCode`: the code is absent or empty. */
  predicate MissingCode(pairingCode: Option<string>)
  {
    pairingCode.None? || pairingCode.value == ""
  }

  /** The validation failure of a request, checked in the handler's order. */
  function Validate(req: Request): (error: Option<string>)
    ensures error.None? <==> !MissingCode(req.pairingCode) && req.hasImage
    ensures MissingCode(req.pairingCode) ==> error == Some(PairingCodeRequired)
    ensures !MissingCode(req.pairingCode) && !req.hasImage ==> error == Some(NoImageProvided)
  {
    if MissingCode(req.pairingCode) then Some(PairingCodeRequired)
    else if !req.hasImage then Some(NoImageProvided)
    else None
  }

  /** The handler for one upload. */
  function HandleUpload(req: Request, v: Vision): (o: Outcome)
    requires WellFormed(v)
    ensures MissingCode(req.pairingCode) ==>
              o == Outcome(Response(400, ErrorBody(PairingCodeRequired)), [])
    ensures !MissingCode(req.pairingCode) && !req.hasImage ==>
              o == Outcome(Response(400, ErrorBody(NoImageProvided)), [])
    ensures Validate(req).None? && Detect(v).Failure? ==>
              o == Outcome(Response(500, ErrorBody(Detect(v).error)), [])
    ensures Validate(req).None? && Detect(v) == Success("") ==>
              o == Outcome(Response(500, ErrorBody(CouldNotDetect)), [])
    ensures Validate(req).None? && Detect(v).Success? && Detect(v).value != "" ==>
              o == Outcome(Response(200, SuccessBody(Detect(v).value, SentToDesktop)),
                           [PositionDetected(req.pairingCode.value, Detect(v).value)])
  {
    match Validate(req)
    case Some(error) => Outcome(Response(400, ErrorBody(error)), [])
    case None =>
      match Detect(v)
      case Failure(message) => Outcome(Response(500, ErrorBody(message)), [])
      case Success(fen) =>
        if fen == "" then Outcome(Response(500, ErrorBody(CouldNotDetect)), [])
        else
          Outcome(Response(200, SuccessBody(fen, SentToDesktop)),
                  [PositionDetected(req.pairingCode.value, fen)])
  }

  /**
   * At most one event is emitted; one is emitted exactly when the reply is a
   * success, it goes to the request's pairing code, and it carries the same
   * non-empty position string as the reply.
   */
  lemma EmitsOnlyOnSuccess(req: Request, v: Vision)
    requires WellFormed(v)
    ensures var o := HandleUpload(req, v);
            && |o.emissions| <= 1
            && (|o.emissions| == 1 <==> o.response.status == 200)
            && (o.response.status == 200 <==> o.response.body.SuccessBody?)
            && (|o.emissions| == 1 ==>
                  && req.pairingCode.Some?
                  && o.emissions[0].code == req.pairingCode.value
                  && o.emissions[0].fen == o.response.body.fen
                  && o.emissions[0].fen != "")
            && o.response.status in {200, 400, 500}
  {
  }

  /**
   * A request that fails validation is answered without running detection: its
   * outcome is the same whatever the key and the vision service would give.
   */
  lemma ValidationPrecedesDetection(req: Request, v1: Vision, v2: Vision)
    requires WellFormed(v1) && WellFormed(v2)
    requires Validate(req).Some?
    ensures HandleUpload(req, v1) == HandleUpload(req, v2)
    ensures HandleUpload(req, v1).response.status == 400
    ensures HandleUpload(req, v1).emissions == []
  {
  }

  /** A missing key fails every valid upload, whatever the service would answer. */
  lemma MissingKeyFailsUpload(req: Request, v: Vision)
    requires WellFormed(v)
    requires Validate(req).None? && MissingKey(v.apiKey)
    ensures HandleUpload(req, v) == Outcome(Response(500, ErrorBody(MissingKeyMessage)), [])
  {
  }

  /**
   * With a key, an answer that is not structured and matches no position
   * pattern is still relayed, as the whole trimmed text, unless that text is
   * empty.
   */
  lemma UnmatchedTextIsRelayed(req: Request, v: Vision)
    requires WellFormed(v)
    requires Validate(req).None? && !MissingKey(v.apiKey)
    requires v.reply.Answered? && !UsesStructured(v.reply.parse) && v.reply.fenMatch.None?
    requires JsText.Trim(v.reply.raw) != ""
    ensures HandleUpload(req, v).emissions
              == [PositionDetected(req.pairingCode.value, JsText.Trim(v.reply.raw))]
  {
  }

  /**
   * End to end: a valid upload whose answer parses to a `fen` of the shape
   * `placement side rest` sends `placement s rest` to the pairing code, where
   * `s` is the reported side (or `w`), and replies with that same string.
   */
  lemma StructuredAnswerIsRelayed(
    req: Request, v: Vision, placement: string, side: string, rest: string)
    requires WellFormed(v)
    requires Validate(req).None? && !MissingKey(v.apiKey)
    requires v.reply.Answered? && v.reply.parse.Parsed?
    requires v.reply.parse.fen == Some(placement + [' '] + side + [' '] + rest)
    requires ' ' !in placement && ' ' !in side
    ensures var fen := placement + [' '] + EffectiveSide(v.reply.parse.sideToMove) + [' '] + rest;
            var o := HandleUpload(req, v);
            && o.response == Response(200, SuccessBody(fen, SentToDesktop))
            && o.emissions == [PositionDetected(req.pairingCode.value, fen)]
  {
    OverrideReplacesSideToken(placement, side, rest, v.reply.parse.sideToMove);
  }

  /** Uploads handled one after another, each with its own vision outcome. */
  function HandleAll(uploads: seq<(Request, Vision)>): (o: seq<Outcome>)
    requires forall i :: 0 <= i < |uploads| ==> WellFormed(uploads[i].1)
    ensures |o| == |uploads|
    ensures forall i :: 0 <= i < |o| ==> o[i] == HandleUpload(uploads[i].0, uploads[i].1)
  {
    if |uploads| == 0 then []
    else [HandleUpload(uploads[0].0, uploads[0].1)] + HandleAll(uploads[1..])
  }

  /** Every event emitted by a run of outcomes, in order. */
  function AllEmissions(outcomes: seq<Outcome>): seq<Emission>
  {
    if |outcomes| == 0 then [] else outcomes[0].emissions + AllEmissions(outcomes[1..])
  }

  /** How many outcomes are successful replies. */
  function Successes(outcomes: seq<Outcome>): nat
  {
    if |outcomes| == 0 then 0
    else (if outcomes[0].response.status == 200 then 1 else 0) + Successes(outcomes[1..])
  }

  /** Over any run of uploads, there are exactly as many events as successful replies. */
  lemma {:induction false} OneEmissionPerSuccess(uploads: seq<(Request, Vision)>)
    requires forall i :: 0 <= i < |uploads| ==> WellFormed(uploads[i].1)
    ensures |AllEmissions(HandleAll(uploads))| == Successes(HandleAll(uploads))
    decreases |uploads|
  {
    if |uploads| > 0 {
      var o := HandleAll(uploads);
      EmitsOnlyOnSuccess(uploads[0].0, uploads[0].1);
      OneEmissionPerSuccess(uploads[1..]);
      assert o[1..] == HandleAll(uploads[1..]);
    }
  }

  /** A code that no upload of a run targeted receives none of the run's events. */
  lemma {:induction false} EmissionsGoToTheirCode(uploads: seq<(Request, Vision)>, code: string)
    requires forall i :: 0 <= i < |uploads| ==> WellFormed(uploads[i].1)
    requires forall i :: 0 <= i < |uploads| ==> uploads[i].0.pairingCode != Some(code)
    ensures forall e :: e in AllEmissions(HandleAll(uploads)) ==> e.code != code
    decreases |uploads|
  {
    if |uploads| > 0 {
      var o := HandleAll(uploads);
      EmitsOnlyOnSuccess(uploads[0].0, uploads[0].1);
      EmissionsGoToTheirCode(uploads[1..], code);
      assert o[1..] == HandleAll(uploads[1..]);
    }
  }
}
