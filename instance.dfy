/**
 * Instance: the decisions Ec2ex::Instance takes around its describe and
 * modify calls. The describe results come in as values: the instances a
 * filter matched, the successive states of a spot request, an instance's
 * block-device mappings, the active reservations.
 */
module Instance {
  import opened Common
  import opened Resources
  import Util

  // ---------------------------------------------------------------------
  // instances_hash: the describe_instances filter
  // ---------------------------------------------------------------------

  /** One `{name, values}` entry of a describe filter. */
  datatype Filter = Filter(name: string, values: seq<string>)

  const StateFilterName := "instance-state-name"
  const TagPrefix := "tag:"

  function StateValues(runningOnly: bool): seq<string>
  {
    if runningOnly then ["running"] else ["running", "stopped"]
  }

  /** The `tag:<key>` entries for the condition pairs, in order. */
  function TagFilters(condition: seq<(string, string)>): seq<Filter>
  {
    if condition == [] then []
    else
      var k := |condition| - 1;
      TagFilters(condition[..k]) + [Filter(TagPrefix + condition[k].0, [condition[k].1])]
  }

  /**
   * instances_hash's filter: a tag entry per condition pair, then the state
   * entry. Condition values are taken already rendered with to_s.
   */
  method InstancesFilter(condition: seq<(string, string)>, runningOnly: bool) returns (filter: seq<Filter>)
    ensures filter == TagFilters(condition) + [Filter(StateFilterName, StateValues(runningOnly))]
  {
    filter := [];
    for i := 0 to |condition|
      invariant filter == TagFilters(condition[..i])
    {
      assert condition[..i + 1][..i] == condition[..i];
      filter := filter + [Filter(TagPrefix + condition[i].0, [condition[i].1])];
    }
    assert condition[..|condition|] == condition;
    filter := filter + [Filter(StateFilterName, StateValues(runningOnly))];
  }

  /** One tag entry per pair, in order, none of them named like the state entry. */
  lemma {:induction false} TagFiltersSpec(condition: seq<(string, string)>)
    ensures |TagFilters(condition)| == |condition|
    ensures forall i :: 0 <= i < |condition| ==>
      TagFilters(condition)[i] == Filter(TagPrefix + condition[i].0, [condition[i].1]) &&
      TagFilters(condition)[i].name != StateFilterName
  {
    if condition != [] {
      var k := |condition| - 1;
      TagFiltersSpec(condition[..k]);
      forall i | 0 <= i < |condition| ensures (TagPrefix + condition[i].0)[2] != StateFilterName[2] {
      }
    }
  }

  /** Reading the condition back off the tag entries (the inverse of TagFilters). */
  function ConditionOf(filters: seq<Filter>): Option<seq<(string, string)>>
  {
    if filters == [] then Some([])
    else
      var k := |filters| - 1;
      var f := filters[k];
      if |f.name| < |TagPrefix| || f.name[..|TagPrefix|] != TagPrefix || |f.values| != 1 then None
      else
        match ConditionOf(filters[..k])
        case None => None
        case Some(c) => Some(c + [(f.name[|TagPrefix|..], f.values[0])])
  }

  /** The filter loses nothing: the condition pairs can be read back from it. */
  lemma {:induction false} FilterRoundTrip(condition: seq<(string, string)>)
    ensures ConditionOf(TagFilters(condition)) == Some(condition)
  {
    if condition != [] {
      var k := |condition| - 1;
      FilterRoundTrip(condition[..k]);
      var fs := TagFilters(condition);
      assert fs[..|fs| - 1] == TagFilters(condition[..k]);
      var name := TagPrefix + condition[k].0;
      assert name[..|TagPrefix|] == TagPrefix && name[|TagPrefix|..] == condition[k].0;
      assert condition[..k] + [(condition[k].0, condition[k].1)] == condition;
    }
  }

  // ---------------------------------------------------------------------
  // instances_hash_first_result
  // ---------------------------------------------------------------------

  /** The process exit the code takes instead of returning. */
  datatype Exit = Exit(status: int)

  /** The first matching instance; exit status 1 when nothing matched. */
  function FirstResult<T>(results: seq<T>): (r: Result<T, Exit>)
    ensures r.Err? <==> results == []
    ensures r.Err? ==> r.error == Exit(1)
    ensures r.Ok? ==> r.value == results[0]
  {
    if results == [] then Err(Exit(1)) else Ok(results[0])
  }

  // ---------------------------------------------------------------------
  // wait_spot_running
  // ---------------------------------------------------------------------

  /** One describe_spot_instance_requests answer. */
  datatype SpotRequest = SpotRequest(state: string, instanceId: string, faultMessage: string)

  /** How polling ends: the instance id, the fault raised after cancelling, or still polling. */
  datatype SpotOutcome = Active(instanceId: string) | Failed(message: string) | Polling

  predicate Settled(r: SpotRequest)
  {
    r.state == "active" || r.state == "failed"
  }

  /**
   * The polling loop over the answers `observed`, one per round. The first
   * `active` answer ends it with that answer's instance id; the first
   * `failed` answer cancels the request and raises its fault message; any
   * other state polls again. `polls` answers are read; `cancelled` says
   * whether the cancel call was made.
   */
  method WaitSpotRunning(observed: seq<SpotRequest>) returns (outcome: SpotOutcome, polls: nat, cancelled: bool)
    ensures polls <= |observed|
    ensures outcome.Polling? <==> polls == |observed| && forall j :: 0 <= j < |observed| ==> !Settled(observed[j])
    ensures outcome.Active? ==> (polls >= 1 && observed[polls - 1].state == "active" &&
      outcome.instanceId == observed[polls - 1].instanceId)
    ensures outcome.Failed? ==> (polls >= 1 && observed[polls - 1].state == "failed" &&
      outcome.message == observed[polls - 1].faultMessage)
    ensures !outcome.Polling? ==> forall j :: 0 <= j < polls - 1 ==> !Settled(observed[j])
    ensures cancelled <==> outcome.Failed?
  {
    outcome, polls, cancelled := Polling, 0, false;
    while polls < |observed|
      invariant polls <= |observed|
      invariant forall j :: 0 <= j < polls ==> !Settled(observed[j])
      decreases |observed| - polls
    {
      var request := observed[polls];
      polls := polls + 1;
      if request.state == "active" {
        outcome := Active(request.instanceId);
        return;
      } else if request.state == "failed" {
        cancelled := true;
        outcome := Failed(request.faultMessage);
        return;
      }
    }
  }

  // ---------------------------------------------------------------------
  // set_delete_on_termination
  // ---------------------------------------------------------------------

  /** One entry of the modify_instance_attribute block-device list. */
  datatype DeviceUpdate = DeviceUpdate(deviceName: string, volumeId: string, deleteOnTermination: bool)

  datatype InstanceError = NoEbs(deviceName: string)

  /**
   * The mappings set_delete_on_termination sends: every device keeps its name
   * and volume and is marked delete-on-termination. A device without `ebs`
   * (instance store) fails as `nil.volume_id` does, at the first such device.
   */
  function DeleteOnTermination(devices: seq<InstanceBlockDevice>): (r: Result<seq<DeviceUpdate>, InstanceError>)
    ensures r.Err? <==> exists i :: 0 <= i < |devices| && devices[i].ebs.None?
    ensures r.Err? ==> exists i :: (0 <= i < |devices| && devices[i].ebs.None? &&
      r.error == NoEbs(devices[i].deviceName) &&
      forall j :: 0 <= j < i ==> devices[j].ebs.Some?)
    ensures r.Ok? ==> |r.value| == |devices| && forall i :: 0 <= i < |devices| ==>
      r.value[i] == DeviceUpdate(devices[i].deviceName, devices[i].ebs.value.volumeId, true)
  {
    if devices == [] then Ok([])
    else if devices[0].ebs.None? then Err(NoEbs(devices[0].deviceName))
    else
      var rest := DeleteOnTermination(devices[1..]);
      assert forall i :: 1 <= i < |devices| ==> devices[i] == devices[1..][i - 1];
      match rest
      case Err(e) =>
        var i :| (0 <= i < |devices[1..]| && devices[1..][i].ebs.None? &&
          e == NoEbs(devices[1..][i].deviceName) &&
          forall j :: 0 <= j < i ==> devices[1..][j].ebs.Some?);
        assert devices[i + 1] == devices[1..][i];
        Err(e)
      case Ok(us) =>
        Ok([DeviceUpdate(devices[0].deviceName, devices[0].ebs.value.volumeId, true)] + us)
  }

  /** The instance's mappings once the updates are applied. */
  function Apply(devices: seq<InstanceBlockDevice>, updates: seq<DeviceUpdate>): seq<InstanceBlockDevice>
    requires |updates| == |devices|
  {
    seq(|devices|, i requires 0 <= i < |devices| =>
      InstanceBlockDevice(devices[i].deviceName, Some(InstanceEbs(updates[i].volumeId, updates[i].deleteOnTermination))))
  }

  /**
   * After the call every volume is deleted with the instance and still the
   * same volume, and calling again would send the very same updates.
   */
  lemma DeleteOnTerminationApplied(devices: seq<InstanceBlockDevice>)
    requires DeleteOnTermination(devices).Ok?
    ensures var after := Apply(devices, DeleteOnTermination(devices).value);
      && (forall i :: 0 <= i < |devices| ==>
        after[i].deviceName == devices[i].deviceName &&
        after[i].ebs == Some(InstanceEbs(devices[i].ebs.value.volumeId, true)))
      && DeleteOnTermination(after) == DeleteOnTermination(devices)
  {
    var us := DeleteOnTermination(devices).value;
    var after := Apply(devices, us);
    var again := DeleteOnTermination(after);
    assert again.Ok?;
    assert again.value == us;
  }

  // ---------------------------------------------------------------------
  // reserved
  // ---------------------------------------------------------------------

  /** An active reserved-instance purchase; a regional one has no availability zone. */
  datatype Reservation = Reservation(instanceType: string, availabilityZone: Option<string>, instanceCount: int)

  /** A row of the report: running on-demand instances and reserved instances for one key. */
  datatype Counts = Counts(instanceCount: int, reservedCount: int)

  /** The report key: instance type and availability zone joined by `_`. */
  function TypeAz(instanceType: string, az: string): string
  {
    instanceType + "_" + az
  }

  /** String interpolation renders a missing zone as nothing, giving `type_`. */
  function ReservationKey(r: Reservation): string
  {
    TypeAz(r.instanceType, r.availabilityZone.GetOr(""))
  }

  /** The keys of the reservations, in order. */
  function ReservationKeys(rs: seq<Reservation>): seq<string>
  {
    seq(|rs|, i requires 0 <= i < |rs| => ReservationKey(rs[i]))
  }

  /** Instances reserved under key `k`. */
  function ReservedSum(rs: seq<Reservation>, k: string): int
  {
    if rs == [] then 0
    else
      var n := |rs| - 1;
      ReservedSum(rs[..n], k) + (if ReservationKey(rs[n]) == k then rs[n].instanceCount else 0)
  }

  /**
   * The `reserved_hash` loop: per key, the sum of the reservations' instance
   * counts (`|| 0` for a key not seen yet). `keys` is the hash's key order.
   */
  method ReservedTotals(rs: seq<Reservation>) returns (totals: map<string, int>, keys: seq<string>)
    ensures forall k :: k in totals <==> k in ReservationKeys(rs)
    ensures forall k :: k in totals ==> totals[k] == ReservedSum(rs, k)
    ensures keys == Util.Uniq(ReservationKeys(rs))
  {
    totals, keys := map[], [];
    for i := 0 to |rs|
      invariant forall k :: k in totals <==> k in ReservationKeys(rs[..i])
      invariant forall k :: k in totals ==> totals[k] == ReservedSum(rs[..i], k)
      invariant keys == Util.Uniq(ReservationKeys(rs[..i]))
    {
      var key := ReservationKey(rs[i]);
      var sum := if key in totals then totals[key] else 0;
      ReservedStep(rs, i);
      Util.UniqSnoc(ReservationKeys(rs[..i]), key);
      if key !in totals {
        ReservedSumAbsent(rs[..i], key);
        keys := keys + [key];
      }
      totals := totals[key := sum + rs[i].instanceCount];
    }
    assert rs[..|rs|] == rs;
  }

  /** One more reservation: its key joins the key list and its count its key's sum. */
  lemma ReservedStep(rs: seq<Reservation>, i: nat)
    requires i < |rs|
    ensures ReservationKeys(rs[..i + 1]) == ReservationKeys(rs[..i]) + [ReservationKey(rs[i])]
    ensures forall k :: (ReservedSum(rs[..i + 1], k) ==
      ReservedSum(rs[..i], k) + (if ReservationKey(rs[i]) == k then rs[i].instanceCount else 0))
  {
    assert rs[..i + 1][..i] == rs[..i];
  }

  lemma {:induction false} ReservedSumAbsent(rs: seq<Reservation>, k: string)
    requires k !in ReservationKeys(rs)
    ensures ReservedSum(rs, k) == 0
  {
    if rs != [] {
      var n := |rs| - 1;
      assert ReservationKeys(rs) == ReservationKeys(rs[..n]) + [ReservationKey(rs[n])];
      ReservedSumAbsent(rs[..n], k);
    }
  }

  /** The report keys of the running on-demand instances (no lifecycle), in order. */
  function OnDemandKeys(instances: seq<Instance>): seq<string>
  {
    if instances == [] then []
    else
      var n := |instances| - 1;
      var inst := instances[n];
      OnDemandKeys(instances[..n]) +
        (if inst.lifecycle.None? then [TypeAz(inst.instanceType, AvailabilityZone(inst))] else [])
  }

  /** The rows `group_count` gives: each on-demand key with its count and no reservation. */
  method OnDemandRows(list: seq<string>) returns (rows: map<string, Counts>)
    ensures forall k :: k in rows <==> k in list
    ensures forall k :: k in rows ==> rows[k] == Counts(multiset(list)[k], 0)
  {
    var counts := Util.GroupCount(list);
    Util.GroupCountSpec(list);
    Util.UniqSpec(list);
    var countKeys := Util.Uniq(list);
    rows := map[];
    for i := 0 to |countKeys|
      invariant forall k :: k in rows <==> k in countKeys[..i]
      invariant forall k :: k in rows ==> rows[k] == Counts(multiset(list)[k], 0)
    {
      rows := rows[countKeys[i] := Counts(counts[countKeys[i]], 0)];
    }
    assert countKeys[..|countKeys|] == countKeys;
  }

  /**
   * The reserved report: a row per key that has running on-demand instances
   * or reservations; the on-demand count is the number of such instances,
   * the reserved count the reservations' total, each 0 where that side has
   * nothing. `instances` is what `instances_hash` returns: the first
   * instance of each reservation in the describe answer, so a reservation
   * that launched several instances contributes one of them.
   */
  method Reserved(rs: seq<Reservation>, instances: seq<Instance>) returns (result: map<string, Counts>)
    ensures forall k :: k in result <==> k in OnDemandKeys(instances) || k in ReservationKeys(rs)
    ensures forall k :: k in result ==>
      result[k] == Counts(multiset(OnDemandKeys(instances))[k], ReservedSum(rs, k))
  {
    var totals, reservedKeys := ReservedTotals(rs);
    var list := OnDemandKeys(instances);
    Util.UniqSpec(ReservationKeys(rs));
    var rows := OnDemandRows(list);
    result := AddReservedCounts(rows, totals, reservedKeys);
    forall k | k in result ensures result[k] == Counts(multiset(list)[k], ReservedSum(rs, k)) {
      if k !in list {
        assert multiset(list)[k] == 0;
      }
      if k !in ReservationKeys(rs) {
        ReservedSumAbsent(rs, k);
      }
    }
  }

  /**
   * The `reserved_hash.each` loop: every key of `totals` gets its reserved
   * count, on its existing row or on a new row with no on-demand instances.
   */
  method AddReservedCounts(rows: map<string, Counts>, totals: map<string, int>, keys: seq<string>)
    returns (result: map<string, Counts>)
    requires forall k :: k in totals <==> k in keys
    requires forall i, j :: 0 <= i < j < |keys| ==> keys[i] != keys[j]
    ensures forall k :: k in result <==> k in rows || k in totals
    ensures forall k :: k in result ==> result[k] == Counts(
      if k in rows then rows[k].instanceCount else 0,
      if k in totals then totals[k] else rows[k].reservedCount)
  {
    result := rows;
    ghost var done: set<string> := {};
    for i := 0 to |keys|
      invariant forall j :: 0 <= j < i ==> keys[j] in done
      invariant forall j :: i <= j < |keys| ==> keys[j] !in done
      invariant done <= totals.Keys
      invariant forall k :: k in result <==> k in rows || k in done
      invariant forall k :: k in result ==> result[k] == Counts(
        if k in rows then rows[k].instanceCount else 0,
        if k in done then totals[k] else rows[k].reservedCount)
    {
      var k := keys[i];
      var row := if k in result then result[k] else Counts(0, 0);
      result := result[k := row.(reservedCount := totals[k])];
      done := done + {k};
    }
    forall k | k in totals ensures k in done {
      var j :| 0 <= j < |keys| && keys[j] == k;
    }
  }
}
