# Worker AMI publishing workflow — a Dafny model

The worker image builder (`cdk/lib/constructs/worker-image-builder/index.ts`)
deploys an EC2 Image Builder pipeline named `RemoteSWEAgentesWorker` and a
small Step Functions state machine that keeps an SSM parameter pointing at the
newest worker AMI. An EventBridge rule starts one execution for every Image
Builder "image AVAILABLE" event. The execution:

1. **GetImage** calls `imagebuilder:getImage` on the event's `resources[0]` and
   evaluates two outputs: `amiId = Image.OutputResources.Amis[0].Image` and
   `isTarget = $contains(SourcePipelineArn, $lowercase("image-pipeline/RemoteSWEAgentesWorker"))`;
2. **Choice** goes to StoreAmiId when `isTarget` holds, otherwise to the
   Succeed state **NotTarget**;
3. **StoreAmiId** calls `ssm:putParameter` with `Overwrite: true`, writing
   `amiId` to the parameter, which was created with the value `initial-value`.

The model has three modules:

- `Jsonata` (`jsonata.dfy`): the two JSONata built-ins the outputs use.
  `Lowercase` lowers ASCII letters. `Contains` is a case-sensitive substring
  test, proved equal to "some index where the pattern occurs". Lemmas say that
  lowering fixes lower-case strings, that lowering the searched string never
  loses a lower-case pattern, and that a string no longer than the pattern
  contains it only by being equal to it.
- `AmiWorkflow` (`workflow.dfy`): the event, the image metadata, the rule's
  event pattern, the GetImage outputs, the terminal states, and the pure
  `Execute` that runs the chain for one event. The class `WorkerImageBuilder`
  holds the parameter store as a map. Its constructor is the deployment, and
  `OnEvent` runs one execution step by step, proved against `Execute`. The
  lemmas pin down the filter. It holds exactly when the ARN contains
  `image-pipeline/remotesweagentesworker`. It is loose: a `-staging` pipeline
  matches too. It is case-sensitive on the ARN side: `Image-Pipeline/...` and
  the pipeline name with its own capitals do not match.
- `AmiHistory` (`history.dfy`): runs in delivery order. Each delivery carries
  its own `getImage` answer and its own `putParameter` outcome. `ValueAfter`
  folds the runs over the parameter. `LatestStoreWins` proves last-writer-wins:
  the parameter holds the AMI id of the most recent storing run, or its
  starting value if no run stored. `DeliverAll` deploys a `WorkerImageBuilder`
  and calls `OnEvent` for each delivery in turn; the store it ends with is the
  one `ValueAfter` predicts.

External calls are parameters. For one execution, `imagebuilder:getImage` is a
function `ImageLookup` from ARN to `Option<ImageInfo>`, where `None` is a failed
call. Whether `ssm:putParameter` succeeds is a boolean. In a history, each
delivery records what its own `getImage` call answered, so a redelivered event
may see a different answer. An image whose
`Amis` list is empty is treated as a GetImage failure: `Amis[0].Image` has no
value, so the execution fails before Choice and the parameter keeps its value.
This holds whether or not the image is a target.

Only the search token is lowered (`index.ts:268`), so the match is
case-sensitive on the ARN; see `MixedCaseSegmentIsNotTarget`.
`ContainsLowercased` and `LoweredArnStaysTarget` only illustrate that point:
the workflow never lowers the ARN, and the lemmas show that lowering it as well
would keep every image the filter accepts now.

## Model

| member | source | states |
|---|---|---|
| Jsonata.Lowercase | cdk/lib/constructs/worker-image-builder/index.ts:268 | `$lowercase` keeps the length and lowers each character independently (ASCII letters) |
| Jsonata.LowercaseFixesLowerCase | cdk/lib/constructs/worker-image-builder/index.ts:268 | a string with no upper-case letter is unchanged by `$lowercase` (so lowering is idempotent) |
| Jsonata.Contains | cdk/lib/constructs/worker-image-builder/index.ts:268 | `$contains(s, p)` is true exactly when `p` occurs in `s` at some index as a contiguous, case-sensitive substring |
| Jsonata.ContainsInfix | cdk/lib/constructs/worker-image-builder/index.ts:268 | a pattern is contained in any string that has it between a prefix and a suffix |
| Jsonata.ContainsLowercased | cdk/lib/constructs/worker-image-builder/index.ts:268 | a lower-case pattern found in `s` is also found in `$lowercase(s)` (illustration: the workflow never lowers the searched string) |
| Jsonata.ContainsNoLonger | cdk/lib/constructs/worker-image-builder/index.ts:268 | a string no longer than the pattern contains it exactly when it equals it |
| AmiWorkflow.MatchesRule | cdk/lib/constructs/worker-image-builder/index.ts:231-240 | an event without `detail.state.status` never matches; a matching event has status `AVAILABLE`, source `aws.imagebuilder` and detail-type `EC2 Image Builder Image State Change` |
| AmiWorkflow.TargetPattern | cdk/lib/constructs/worker-image-builder/index.ts:208-268 | the pattern is `$lowercase("image-pipeline/" + pipelineName)`, as long as the unlowered text |
| AmiWorkflow.TargetPatternIsToken | cdk/lib/constructs/worker-image-builder/index.ts:208-268 | `$lowercase("image-pipeline/" + pipelineName)` with `pipelineName = RemoteSWEAgentesWorker` is `image-pipeline/remotesweagentesworker` |
| AmiWorkflow.IsTarget | cdk/lib/constructs/worker-image-builder/index.ts:268 | `isTarget` holds exactly when the source pipeline ARN contains `image-pipeline/remotesweagentesworker` at some index |
| AmiWorkflow.ImageOutputs | cdk/lib/constructs/worker-image-builder/index.ts:265-270 | GetImage's outputs exist exactly when `Amis` is non-empty; then `amiId` is `Amis[0].Image`, the ARN is passed through, and `isTarget` is the substring test |
| AmiWorkflow.Execute | cdk/lib/constructs/worker-image-builder/index.ts:231-279 | no execution starts exactly when the rule does not match; NotTarget means the image resolved, has an AMI and is not a target; a stored AMI id means the image resolved, has an AMI, is a target, the put was accepted, and the id is `Amis[0].Image`; failing in GetImage means no `resources[0]`, a failed lookup or an empty `Amis`; failing in StoreAmiId means a target image with an AMI whose put was rejected |
| AmiWorkflow.StoresExactlyOnTarget | cdk/lib/constructs/worker-image-builder/index.ts:232-268 | a run writes `a` if and only if the event matches the rule, `resources[0]` resolves to an image with an AMI whose pipeline ARN contains the token, the put succeeds, and `a` is `Amis[0].Image` |
| AmiWorkflow.UnmatchedEventIgnored | cdk/lib/constructs/worker-image-builder/index.ts:232-240 | an event that is not an `aws.imagebuilder` image-state-change with status AVAILABLE starts no execution and leaves the parameter unchanged |
| AmiWorkflow.NonTargetEndsInNotTarget | cdk/lib/constructs/worker-image-builder/index.ts:254-256 | a resolved non-target image ends the execution in the NotTarget Succeed state with the parameter unchanged |
| AmiWorkflow.FailedLookupChangesNothing | cdk/lib/constructs/worker-image-builder/index.ts:258-273 | with no `resources[0]`, a failed `getImage`, or an image whose `Amis` is empty (so `Amis[0].Image` has no value), the execution fails in GetImage (no catch) and the parameter is unchanged |
| AmiWorkflow.RejectedPutFailsStore | cdk/lib/constructs/worker-image-builder/index.ts:242-256 | a target image with an AMI whose `putParameter` is rejected ends the execution failed in StoreAmiId (no catch) with the parameter unchanged |
| AmiWorkflow.OnlyFirstResourceMatters | cdk/lib/constructs/worker-image-builder/index.ts:262-264 | two events with the same rule fields and the same `resources[0]`, under lookups agreeing on it, have the same execution whatever their other resources |
| AmiWorkflow.ContainingTokenIsTarget | cdk/lib/constructs/worker-image-builder/index.ts:267-268 | every ARN containing the token, whatever precedes or follows it, is classified as a target |
| AmiWorkflow.StagingPipelineIsTarget | cdk/lib/constructs/worker-image-builder/index.ts:267-268 | an ARN ending in `image-pipeline/remotesweagentesworker-staging` is classified as a target |
| AmiWorkflow.LoweredArnStaysTarget | cdk/lib/constructs/worker-image-builder/index.ts:268 | lowering a target ARN leaves it a target (illustration only: the workflow lowers the token, never the ARN) |
| AmiWorkflow.TokenLengthArnIsTargetIffToken | cdk/lib/constructs/worker-image-builder/index.ts:268 | an ARN as long as the token is a target if and only if it equals the token |
| AmiWorkflow.MixedCaseSegmentIsNotTarget | cdk/lib/constructs/worker-image-builder/index.ts:208-268 | `image-pipeline/RemoteSWEAgentesWorker` and `Image-Pipeline/RemoteSWEAgentesWorker` are not targets, although the former's lowering is: only the token is lowered |
| AmiWorkflow.WorkerImageBuilder.constructor | cdk/lib/constructs/worker-image-builder/index.ts:224-228 | deployment creates the parameter, whose name no existing parameter has, with value `initial-value` next to the existing ones |
| AmiWorkflow.WorkerImageBuilder.OnEvent | cdk/lib/constructs/worker-image-builder/index.ts:242-279 | one delivered event runs as `Execute` says; a storing run overwrites only the workflow's parameter with the AMI id, any other run leaves the whole store unchanged |
| AmiHistory.ValueAfter | cdk/lib/constructs/worker-image-builder/index.ts:242-256 | after a sequence of runs the parameter holds either its starting value or an AMI id that one of the runs wrote |
| AmiHistory.ValueAfterAppend | cdk/lib/constructs/worker-image-builder/index.ts:242-256 | delivering one more event applies that run's effect to the value the earlier deliveries left |
| AmiHistory.LatestStoreWins | cdk/lib/constructs/worker-image-builder/index.ts:242-256 | in delivery order, the parameter ends with the AMI id of the last storing run, or its starting value when no run stored (last writer wins) |
| AmiHistory.ParameterTracksLatestTargetImage | cdk/lib/constructs/worker-image-builder/index.ts:224-266 | from deployment on, after the last storing run the parameter is that run's `Amis[0].Image` |
| AmiHistory.InitialUntilFirstStore | cdk/lib/constructs/worker-image-builder/index.ts:224-228 | until a run stores, the parameter is still `initial-value` |
| AmiHistory.NonStoringRunsInvisible | cdk/lib/constructs/worker-image-builder/index.ts:254-256 | a non-storing run can be removed from any history without changing the parameter |
| AmiHistory.Deliver | cdk/lib/constructs/worker-image-builder/index.ts:242-279 | one `OnEvent` call sets the workflow's parameter to what `ValueAfterRun` gives and leaves every other parameter as it was |
| AmiHistory.DeliverEach | cdk/lib/constructs/worker-image-builder/index.ts:242-279 | `OnEvent` calls for `ds` in order leave the parameter at `ValueAfter` of its old value and the other parameters unchanged |
| AmiHistory.DeliverAll | cdk/lib/constructs/worker-image-builder/index.ts:224-279 | deploying and then delivering `ds` leaves the existing parameters untouched and the workflow's parameter at `ValueAfter("initial-value", ds)` |

## Left out

- Concurrent executions: runs are taken one at a time in delivery order. Races on the parameter between simultaneous executions are not modelled.
- `$lowercase` is modelled for ASCII letters only; other characters are kept. JSONata lowers all of Unicode. The argument here is a fixed ASCII string, so the difference does not matter.
- An image without `SourcePipelineArn` is not modelled. The ARN is always a string. The result of `$contains` on a missing value is not modelled.
- GetImage's third output, `sourcePipelineArn`, is carried in `GetImageOutput` but nothing reads it.
- AWS services are left out. `imagebuilder:getImage` is the `ImageLookup` parameter of one execution; in a history, each delivery records its own answer. Whether `ssm:putParameter` succeeds is a boolean per delivery.
- EventBridge pattern matching is modelled only for this rule's three single-valued fields. Matching against array-valued event fields is not modelled.
- CDK resource declarations are not modelled because nothing runs them. These are the IAM role, instance profile, infrastructure configuration, component, recipe, distribution configuration, the pipeline and its weekly schedule.
- The component's shell script (install retry loops, verification steps) is not modelled. It runs on the build instance and is pure I/O.
- `cdk/lib/worker-image-builder.ts` is not modelled. It only passes the parameter name through.
- `worker/src/agent/tools/report-progress/index.ts` and `packages/common/src/aws/s3.ts` are not part of this model. They are a Slack message wrapper and an S3 read, and share nothing with the workflow.
