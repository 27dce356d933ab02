/**
 * The worker-AMI publishing workflow of the worker image builder: an
 * EventBridge rule starts one Step Functions execution per Image Builder
 * "image AVAILABLE" event; the execution looks the image up (GetImage),
 * decides whether it came from the worker pipeline (Choice) and, if so,
 * overwrites the SSM parameter with the image's first AMI id (StoreAmiId),
 * otherwise ends in the Succeed state NotTarget.
 */
module AmiWorkflow {
  import opened Jsonata

  datatype Option<T> = None | Some(value: T)

  /**
   * The EventBridge event, as far as the rule and the state machine read it:
   * `source`, `detail-type`, `detail.state.status` (None when absent) and
   * `resources`, whose first entry is the image build version ARN.
   */
  datatype Event = Event(
    source: string,
    detailType: string,
    stateStatus: Option<string>,
    resources: seq<string>)

  /** One entry of `Image.OutputResources.Amis`. */
  datatype Ami = Ami(region: string, image: string)

  /** The part of the `imagebuilder:getImage` result the workflow reads. */
  datatype ImageInfo = ImageInfo(amis: seq<Ami>, sourcePipelineArn: string)

  /**
   * The `imagebuilder:getImage` call, keyed by image build version ARN;
   * None stands for a failed call (unknown ARN, denied, timed out).
   */
  type ImageLookup = string -> Option<ImageInfo>

  // Configuration fixed at deployment.
  const RuleSource := "aws.imagebuilder"
  const RuleDetailType := "EC2 Image Builder Image State Change"
  const RuleStatus := "AVAILABLE"
  const PipelineName := "RemoteSWEAgentesWorker"
  const InitialValue := "initial-value"

  /** The lower-case pipeline token the filter searches for. */
  const Token := "image-pipeline/remotesweagentesworker"

  /**
   * The EventBridge rule's event pattern: each of the three fields must be
   * present with the one value listed for it; other fields are not read.
   */
  predicate MatchesRule(e: Event): (r: bool)
    ensures e.stateStatus.None? ==> !r
    ensures r ==> e.stateStatus.value == RuleStatus && e.source == RuleSource && e.detailType == RuleDetailType
  {
    && e.source == RuleSource
    && e.detailType == RuleDetailType
    && e.stateStatus == Some(RuleStatus)
  }

  /**
   * The pattern handed to `$contains`: `$lowercase("image-pipeline/" + pipelineName)`.
   * TargetPatternIsToken gives its value.
   */
  function TargetPattern(): (r: string)
    ensures |r| == |"image-pipeline/"| + |PipelineName|
  {
    Lowercase("image-pipeline/" + PipelineName)
  }

  /** Lowering `image-pipeline/` + the worker pipeline's name yields the token. */
  lemma TargetPatternIsToken()
    ensures TargetPattern() == Token
  {
  }

  /** The `isTarget` output: `$contains(SourcePipelineArn, TargetPattern())`. */
  function IsTarget(sourcePipelineArn: string): (r: bool)
    ensures r <==> exists i :: OccursAt(sourcePipelineArn, Token, i)
  {
    TargetPatternIsToken();
    Contains(sourcePipelineArn, TargetPattern())
  }

  /** The outputs GetImage passes on to Choice. */
  datatype GetImageOutput = GetImageOutput(amiId: string, isTarget: bool, sourcePipelineArn: string)

  /**
   * Evaluates GetImage's output expressions on a looked-up image. With no
   * AMI, `Amis[0].Image` has no value and the state fails: None.
   */
  function ImageOutputs(image: ImageInfo): (r: Option<GetImageOutput>)
    ensures r.None? <==> image.amis == []
    ensures r.Some? ==> r.value.amiId == image.amis[0].image
    ensures r.Some? ==> r.value.sourcePipelineArn == image.sourcePipelineArn
    ensures r.Some? ==> (r.value.isTarget <==> exists i :: OccursAt(image.sourcePipelineArn, Token, i))
  {
    if |image.amis| == 0 then None
    else Some(GetImageOutput(image.amis[0].image, IsTarget(image.sourcePipelineArn), image.sourcePipelineArn))
  }

  /** The state an execution fails in. */
  datatype FailedState = GetImageFailed | StoreAmiIdFailed

  /** How an execution ends. */
  datatype Terminal =
    | Stored(amiId: string)   // StoreAmiId overwrote the parameter
    | NotTarget               // the Succeed state after a non-target image
    | Failed(state: FailedState)

  /** What one event causes: no execution when the rule does not match. */
  datatype Execution = NotStarted | Finished(end: Terminal)

  /**
   * The execution an event causes, as the chain GetImage -> Choice ->
   * (StoreAmiId | NotTarget) defines it. `putAccepted` is whether the
   * `ssm:putParameter` call succeeds. No state has a catch, so any failure
   * ends the execution where it happens.
   */
  function Execute(e: Event, lookup: ImageLookup, putAccepted: bool): (x: Execution)
    ensures x.NotStarted? <==> !MatchesRule(e)
    ensures x == Finished(NotTarget) ==>
      |e.resources| > 0 && lookup(e.resources[0]).Some? && |lookup(e.resources[0]).value.amis| > 0 &&
      !IsTarget(lookup(e.resources[0]).value.sourcePipelineArn)
    ensures x.Finished? && x.end.Stored? ==>
      && |e.resources| > 0
      && lookup(e.resources[0]).Some?
      && |lookup(e.resources[0]).value.amis| > 0
      && IsTarget(lookup(e.resources[0]).value.sourcePipelineArn)
      && putAccepted
      && x.end.amiId == lookup(e.resources[0]).value.amis[0].image
    ensures x == Finished(Failed(GetImageFailed)) ==>
      |e.resources| == 0 || lookup(e.resources[0]).None? || lookup(e.resources[0]).value.amis == []
    ensures x == Finished(Failed(StoreAmiIdFailed)) ==>
      && |e.resources| > 0
      && lookup(e.resources[0]).Some?
      && |lookup(e.resources[0]).value.amis| > 0
      && IsTarget(lookup(e.resources[0]).value.sourcePipelineArn)
      && !putAccepted
  {
    if !MatchesRule(e) then NotStarted
    else if |e.resources| == 0 then Finished(Failed(GetImageFailed))
    else match lookup(e.resources[0])
      case None => Finished(Failed(GetImageFailed))
      case Some(image) =>
        match ImageOutputs(image)
        case None => Finished(Failed(GetImageFailed))
        case Some(out) =>
          if !out.isTarget then Finished(NotTarget)
          else if !putAccepted then Finished(Failed(StoreAmiIdFailed))
          else Finished(Stored(out.amiId))
  }

  /** The value an execution wrote to the parameter, if any. */
  function Written(x: Execution): Option<string> {
    if x.Finished? && x.end.Stored? then Some(x.end.amiId) else None
  }

  /** The parameter's value after an execution, given its value before. */
  function ValueAfterRun(before: string, x: Execution): string {
    match Written(x)
    case Some(amiId) => amiId
    case None => before
  }

  /**
   * A run stores exactly when the event matches the rule, its first
   * resource names an image the lookup finds with at least one AMI, the
   * image's pipeline ARN contains the token, and the write is accepted;
   * the value stored is the first AMI's id.
   */
  lemma StoresExactlyOnTarget(e: Event, lookup: ImageLookup, putAccepted: bool, amiId: string)
    ensures Written(Execute(e, lookup, putAccepted)) == Some(amiId) <==>
      && MatchesRule(e)
      && |e.resources| > 0
      && lookup(e.resources[0]).Some?
      && |lookup(e.resources[0]).value.amis| > 0
      && (exists i :: OccursAt(lookup(e.resources[0]).value.sourcePipelineArn, Token, i))
      && putAccepted
      && amiId == lookup(e.resources[0]).value.amis[0].image
  {
  }

  /** An event the rule does not match starts nothing and changes nothing. */
  lemma UnmatchedEventIgnored(e: Event, lookup: ImageLookup, putAccepted: bool, before: string)
    requires !MatchesRule(e)
    ensures Execute(e, lookup, putAccepted) == NotStarted
    ensures ValueAfterRun(before, Execute(e, lookup, putAccepted)) == before
  {
  }

  /** A matched event whose image did not come from the worker pipeline ends in NotTarget. */
  lemma NonTargetEndsInNotTarget(e: Event, lookup: ImageLookup, putAccepted: bool, before: string)
    requires MatchesRule(e) && |e.resources| > 0
    requires lookup(e.resources[0]).Some? && |lookup(e.resources[0]).value.amis| > 0
    requires !IsTarget(lookup(e.resources[0]).value.sourcePipelineArn)
    ensures Execute(e, lookup, putAccepted) == Finished(NotTarget)
    ensures ValueAfterRun(before, Execute(e, lookup, putAccepted)) == before
  {
  }

  /**
   * A failed lookup, a missing resource or an image without AMIs (so that
   * `Amis[0].Image` has no value) fails GetImage and changes nothing.
   */
  lemma FailedLookupChangesNothing(e: Event, lookup: ImageLookup, putAccepted: bool, before: string)
    requires MatchesRule(e)
    requires |e.resources| == 0 || lookup(e.resources[0]).None? || lookup(e.resources[0]).value.amis == []
    ensures Execute(e, lookup, putAccepted) == Finished(Failed(GetImageFailed))
    ensures ValueAfterRun(before, Execute(e, lookup, putAccepted)) == before
  {
  }

  /** A target image whose `putParameter` call is rejected fails in StoreAmiId and changes nothing. */
  lemma RejectedPutFailsStore(e: Event, lookup: ImageLookup, before: string)
    requires MatchesRule(e) && |e.resources| > 0
    requires lookup(e.resources[0]).Some? && |lookup(e.resources[0]).value.amis| > 0
    requires IsTarget(lookup(e.resources[0]).value.sourcePipelineArn)
    ensures Execute(e, lookup, false) == Finished(Failed(StoreAmiIdFailed))
    ensures ValueAfterRun(before, Execute(e, lookup, false)) == before
  {
  }

  /**
   * Only `resources[0]` and what the lookup returns for it matter: later
   * resources and the lookup's answers for other ARNs never change the outcome.
   */
  lemma OnlyFirstResourceMatters(e1: Event, e2: Event, lookup1: ImageLookup, lookup2: ImageLookup, putAccepted: bool)
    requires e1.source == e2.source && e1.detailType == e2.detailType && e1.stateStatus == e2.stateStatus
    requires |e1.resources| > 0 && |e2.resources| > 0 && e1.resources[0] == e2.resources[0]
    requires lookup1(e1.resources[0]) == lookup2(e2.resources[0])
    ensures Execute(e1, lookup1, putAccepted) == Execute(e2, lookup2, putAccepted)
  {
  }

  /**
   * The filter is a loose substring test: every ARN that contains the token
   * anywhere, followed by anything (such as a `-staging` suffix), is a target.
   */
  lemma ContainingTokenIsTarget(prefix: string, suffix: string)
    ensures IsTarget(prefix + Token + suffix)
  {
    ContainsInfix(prefix, Token, suffix);
  }

  /** An ARN of a pipeline whose name only starts with the worker pipeline's is a target too. */
  lemma StagingPipelineIsTarget()
    ensures IsTarget("arn:aws:imagebuilder:us-east-1:123456789012:" + "image-pipeline/remotesweagentesworker" + "-staging")
  {
    ContainingTokenIsTarget("arn:aws:imagebuilder:us-east-1:123456789012:", "-staging");
  }

  /**
   * Only the token is lowered, not the ARN: lowering an ARN never turns a
   * target into a non-target, but the converse fails, as
   * MixedCaseSegmentIsNotTarget shows.
   */
  lemma LoweredArnStaysTarget(arn: string)
    requires IsTarget(arn)
    ensures IsTarget(Lowercase(arn))
  {
    TargetPatternIsToken();
    ContainsLowercased(arn, Token);
  }

  /** An ARN exactly as long as the token is a target exactly when it is the token. */
  lemma TokenLengthArnIsTargetIffToken(arn: string)
    requires |arn| == |Token|
    ensures IsTarget(arn) <==> arn == Token
  {
    ContainsNoLonger(arn, Token);
  }

  /**
   * The match is case-sensitive on the ARN side: the segment spelled with the
   * pipeline's own capitals, or with `Image-Pipeline`, is not a target,
   * although the lowering of the former is.
   */
  lemma MixedCaseSegmentIsNotTarget()
    ensures !IsTarget("image-pipeline/" + PipelineName)
    ensures !IsTarget("Image-Pipeline/" + PipelineName)
    ensures IsTarget(TargetPattern())
  {
    var own, capital := "image-pipeline/" + PipelineName, "Image-Pipeline/" + PipelineName;
    assert own[15] != Token[15];
    TokenLengthArnIsTargetIffToken(own);
    assert capital[0] != Token[0];
    TokenLengthArnIsTargetIffToken(capital);
    TargetPatternIsToken();
    TokenLengthArnIsTargetIffToken(Token);
  }

  /**
   * The deployed workflow together with the SSM parameter store it writes:
   * `parameters` maps parameter names to values, and `parameterName` is the
   * one parameter this workflow owns.
   */
  class WorkerImageBuilder {
    const parameterName: string
    var parameters: map<string, string>

    ghost predicate Valid()
      reads this
    {
      parameterName in parameters
    }

    /** The current value of the workflow's parameter. */
    function AmiParameter(): string
      reads this
      requires Valid()
    {
      parameters[parameterName]
    }

    /**
     * Deployment: creates the parameter with the placeholder value
     * `initial-value`, next to whatever parameters already exist.
     */
    constructor (parameterName: string, existing: map<string, string>)
      requires parameterName !in existing
      ensures Valid()
      ensures this.parameterName == parameterName
      ensures parameters == existing[parameterName := InitialValue]
      ensures AmiParameter() == InitialValue
    {
      this.parameterName := parameterName;
      parameters := existing[parameterName := InitialValue];
    }

    /**
     * Delivers one event: the rule filters it, then GetImage, Choice and
     * StoreAmiId run in turn. The write is an unconditional overwrite of
     * the workflow's own parameter; no other parameter changes.
     */
    method OnEvent(e: Event, lookup: ImageLookup, putAccepted: bool) returns (x: Execution)
      requires Valid()
      modifies this
      ensures Valid()
      ensures x == Execute(e, lookup, putAccepted)
      ensures Written(x).Some? ==> parameters == old(parameters)[parameterName := Written(x).value]
      ensures Written(x).None? ==> parameters == old(parameters)
      ensures AmiParameter() == ValueAfterRun(old(AmiParameter()), x)
    {
      // Rule
      if !MatchesRule(e) {
        return NotStarted;
      }
      // GetImage
      if |e.resources| == 0 {
        return Finished(Failed(GetImageFailed));
      }
      var image := lookup(e.resources[0]);
      if image.None? {
        return Finished(Failed(GetImageFailed));
      }
      var out := ImageOutputs(image.value);
      if out.None? {
        return Finished(Failed(GetImageFailed));
      }
      // Choice
      if !out.value.isTarget {
        return Finished(NotTarget);
      }
      // StoreAmiId
      if !putAccepted {
        return Finished(Failed(StoreAmiIdFailed));
      }
      parameters := parameters[parameterName := out.value.amiId];
      x := Finished(Stored(out.value.amiId));
    }
  }
}
