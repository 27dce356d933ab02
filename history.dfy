/**
 * Runs of the publishing workflow in event-delivery order. Executions are
 * taken one after another; the parameter is the only state they share.
 */
module AmiHistory {
  import opened AmiWorkflow

  /**
   * One delivered event, what its `imagebuilder:getImage` call answers
   * (None for a failed call), and whether its `ssm:putParameter` call
   * succeeds. Each delivery carries its own answers, so a redelivered
   * event may see a lookup fail that succeeded before, or the reverse.
   */
  datatype Delivery = Delivery(event: Event, getImage: Option<ImageInfo>, putAccepted: bool)

  /** The getImage call as this delivery's execution sees it. */
  function LookupOf(d: Delivery): ImageLookup {
    arn => d.getImage
  }

  /** The execution a delivery causes. */
  function RunOf(d: Delivery): Execution {
    Execute(d.event, LookupOf(d), d.putAccepted)
  }

  /** The delivery's execution overwrote the parameter. */
  predicate Stores(d: Delivery) {
    Written(RunOf(d)).Some?
  }

  /** Some run of `ds` wrote `amiId`. */
  ghost predicate WrittenByOne(ds: seq<Delivery>, amiId: string) {
    exists k :: 0 <= k < |ds| && Written(RunOf(ds[k])) == Some(amiId)
  }

  /**
   * The parameter's value after the deliveries `ds`, in order, starting
   * from `value`: either still `value`, or what one of the runs wrote.
   */
  function ValueAfter(value: string, ds: seq<Delivery>): (r: string)
    ensures r == value || WrittenByOne(ds, r)
    decreases |ds|
  {
    if ds == [] then value
    else
      var r := ValueAfter(ValueAfterRun(value, RunOf(ds[0])), ds[1..]);
      assert forall k :: 0 <= k < |ds| - 1 ==> ds[1..][k] == ds[k + 1];
      r
  }

  /** Delivering one more event applies that event's run to the value reached so far. */
  lemma {:induction false} ValueAfterAppend(value: string, ds: seq<Delivery>, d: Delivery)
    ensures ValueAfter(value, ds + [d]) == ValueAfterRun(ValueAfter(value, ds), RunOf(d))
    decreases |ds|
  {
    if ds == [] {
      assert ds + [d] == [d];
      assert [d][1..] == [];
    } else {
      assert (ds + [d])[1..] == ds[1..] + [d];
      ValueAfterAppend(ValueAfterRun(value, RunOf(ds[0])), ds[1..], d);
    }
  }

  /**
   * Last writer wins: if the run at `k` stores and no later run does, the
   * parameter ends up with the AMI id that run stored; if no run stores,
   * the parameter keeps its starting value.
   */
  lemma {:induction false} LatestStoreWins(value: string, ds: seq<Delivery>)
    ensures (forall k :: 0 <= k < |ds| ==> !Stores(ds[k])) ==>
      ValueAfter(value, ds) == value
    ensures forall k ::
      (0 <= k < |ds| && Stores(ds[k]) && (forall j :: k < j < |ds| ==> !Stores(ds[j])))
      ==> ValueAfter(value, ds) == Written(RunOf(ds[k])).value
    decreases |ds|
  {
    if ds != [] {
      var n := |ds| - 1;
      var pre, d := ds[..n], ds[n];
      assert ds == pre + [d];
      ValueAfterAppend(value, pre, d);
      LatestStoreWins(value, pre);
      if !Stores(d) {
        forall k | 0 <= k < |ds| && Stores(ds[k]) &&
          (forall j :: k < j < |ds| ==> !Stores(ds[j]))
          ensures ValueAfter(value, ds) == Written(RunOf(ds[k])).value
        {
          assert k < n && pre[k] == ds[k];
          assert forall j :: k < j < |pre| ==> pre[j] == ds[j];
        }
        if forall k :: 0 <= k < |ds| ==> !Stores(ds[k]) {
          assert forall k :: 0 <= k < |pre| ==> pre[k] == ds[k];
        }
      }
    }
  }

  /**
   * From deployment on, the parameter holds `initial-value` until the first
   * run that stores, and afterwards the AMI id of the most recent such run.
   */
  lemma ParameterTracksLatestTargetImage(ds: seq<Delivery>, k: nat)
    requires k < |ds| && Stores(ds[k])
    requires forall j :: k < j < |ds| ==> !Stores(ds[j])
    ensures ValueAfter(InitialValue, ds) == Written(RunOf(ds[k])).value
    ensures ValueAfter(InitialValue, ds) == ds[k].getImage.value.amis[0].image
  {
    LatestStoreWins(InitialValue, ds);
  }

  /** Until some run stores, the parameter still holds `initial-value`. */
  lemma InitialUntilFirstStore(ds: seq<Delivery>)
    requires forall k :: 0 <= k < |ds| ==> !Stores(ds[k])
    ensures ValueAfter(InitialValue, ds) == InitialValue
  {
    LatestStoreWins(InitialValue, ds);
  }

  /** Runs that do not store may be dropped from the history without changing the parameter. */
  lemma {:induction false} NonStoringRunsInvisible(value: string, ds: seq<Delivery>, d: Delivery, rest: seq<Delivery>)
    requires !Stores(d)
    ensures ValueAfter(value, ds + [d] + rest) == ValueAfter(value, ds + rest)
    decreases |rest|
  {
    if rest == [] {
      assert ds + [d] + rest == ds + [d];
      assert ds + rest == ds;
      ValueAfterAppend(value, ds, d);
    } else {
      var n := |rest| - 1;
      var pre, last := rest[..n], rest[n];
      assert ds + [d] + rest == (ds + [d] + pre) + [last];
      assert ds + rest == (ds + pre) + [last];
      ValueAfterAppend(value, ds + [d] + pre, last);
      ValueAfterAppend(value, ds + pre, last);
      NonStoringRunsInvisible(value, ds, d, pre);
    }
  }

  /** Delivers `d` to a deployed workflow: its run sets the parameter as ValueAfterRun says. */
  method Deliver(w: WorkerImageBuilder, d: Delivery)
    requires w.Valid()
    modifies w
    ensures w.Valid()
    ensures w.parameters == old(w.parameters)[w.parameterName := ValueAfterRun(old(w.AmiParameter()), RunOf(d))]
  {
    var x := w.OnEvent(d.event, LookupOf(d), d.putAccepted);
  }

  /** Delivers `ds` to a deployed workflow one event after another, in order. */
  method DeliverEach(w: WorkerImageBuilder, ds: seq<Delivery>)
    requires w.Valid()
    modifies w
    ensures w.Valid()
    ensures w.parameters == old(w.parameters)[w.parameterName := ValueAfter(old(w.AmiParameter()), ds)]
    decreases |ds|
  {
    if ds != [] {
      Deliver(w, ds[0]);
      DeliverEach(w, ds[1..]);
    }
  }

  /**
   * Deploys the workflow and delivers `ds` to it: the parameter ends as
   * ValueAfter says from `initial-value`, and every other parameter is as
   * it was before deployment.
   */
  method DeliverAll(parameterName: string, existing: map<string, string>, ds: seq<Delivery>)
    returns (w: WorkerImageBuilder)
    requires parameterName !in existing
    ensures fresh(w) && w.Valid() && w.parameterName == parameterName
    ensures w.parameters == existing[parameterName := ValueAfter(InitialValue, ds)]
  {
    w := new WorkerImageBuilder(parameterName, existing);
    DeliverEach(w, ds);
  }
}
