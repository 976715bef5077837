/**
 * Creator: how Ec2ex::Instance::Creator fans a launch out over
 * `instance_count` servers and what each launch request holds.
 *
 * The fan-out is reduced to its partition: `in_threads` servers at a time,
 * the indices `0..instance_count-1` cut by `each_slice`, and the status-ok
 * wait only for the servers of the final slice. A request is a map built one
 * key at a time, as the Ruby hashes are, before `params` is merged over it.
 */
module Creator {
  import opened Common
  import opened Resources
  import opened Tag
  import Json
  import Network
  import Ami

  // ---------------------------------------------------------------------
  // in_threads and the each_slice partition
  // ---------------------------------------------------------------------

  const MaxThreads := 20

  /** `(instance_count > 20) ? 20 : instance_count`: the count, capped at 20. */
  function InThreads(count: int): (n: int)
    ensures n <= MaxThreads && n <= count
    ensures n == MaxThreads || n == count
  {
    if count > MaxThreads then MaxThreads else count
  }

  /** `each_slice(size)` once the size is valid: consecutive runs of `size`, the last possibly shorter. */
  function Slices<T>(xs: seq<T>, size: nat): seq<seq<T>>
    requires size > 0
    decreases |xs|
  {
    if xs == [] then []
    else if |xs| <= size then [xs]
    else [xs[..size]] + Slices(xs[size..], size)
  }

  function Flatten<T>(gs: seq<seq<T>>): seq<T>
  {
    if gs == [] then [] else gs[0] + Flatten(gs[1..])
  }

  function Min(a: int, b: int): int
  {
    if a < b then a else b
  }

  /** The slices put back together are the list; each has 1 to `size` elements, all but the last exactly `size`. */
  lemma {:induction false} SlicesSpec<T>(xs: seq<T>, size: nat)
    requires size > 0
    ensures Flatten(Slices(xs, size)) == xs
    ensures forall j :: 0 <= j < |Slices(xs, size)| ==> 1 <= |Slices(xs, size)[j]| <= size
    ensures forall j :: 0 <= j < |Slices(xs, size)| - 1 ==> |Slices(xs, size)[j]| == size
    decreases |xs|
  {
    if xs != [] && |xs| > size {
      SlicesSpec(xs[size..], size);
      var gs := Slices(xs, size);
      assert gs[1..] == Slices(xs[size..], size);
      assert xs[..size] + xs[size..] == xs;
    }
  }

  /** Slice `j` is the run of `xs` from `j * size` to `(j + 1) * size` (or the end). */
  lemma {:induction false} SlicesAt<T>(xs: seq<T>, size: nat, j: nat)
    requires size > 0 && j < |Slices(xs, size)|
    ensures j * size < |xs|
    ensures Slices(xs, size)[j] == xs[j * size .. Min((j + 1) * size, |xs|)]
    decreases |xs|
  {
    if j > 0 {
      var rest := xs[size..];
      assert Slices(xs, size) == [xs[..size]] + Slices(rest, size);
      SlicesAt(rest, size, j - 1);
      var a := (j - 1) * size;
      var m := Min(j * size, |rest|);
      ShiftMul(j, size);
      assert size + a == j * size;
      assert size + m == Min((j + 1) * size, |xs|);
      SliceOfSuffix(xs, size, a, m);
    }
  }

  lemma ShiftMul(j: nat, size: nat)
    requires j > 0
    ensures size + (j - 1) * size == j * size && j * size + size == (j + 1) * size
  {
  }

  lemma SliceOfSuffix<T>(xs: seq<T>, k: nat, a: nat, m: nat)
    requires k <= |xs| && a <= m <= |xs| - k
    ensures xs[k..][a..m] == xs[k + a .. k + m]
  {
  }

  function Range(n: nat): (r: seq<nat>)
    ensures |r| == n && forall i :: 0 <= i < n ==> r[i] == i
  {
    seq(n, i => i)
  }

  /** each_slice refuses a size below 1 (ArgumentError). */
  datatype SliceError = InvalidSliceSize(size: int)

  /** `instance_count.times.to_a.each_slice(in_threads).to_a`. */
  function Groups(count: int): Result<seq<seq<nat>>, SliceError>
  {
    var size := InThreads(count);
    if size <= 0 then Err(InvalidSliceSize(size))
    else Ok(Slices(Range(count), size))
  }

  /**
   * The partition fails exactly when there is no server; otherwise the groups
   * are `0..count-1` in order, each of 1 to `in_threads` indices, all but the
   * last exactly `in_threads`.
   */
  lemma GroupsSpec(count: int)
    ensures Groups(count).Err? <==> count <= 0
    ensures Groups(count).Ok? ==> var gs := Groups(count).value;
      && Flatten(gs) == Range(count)
      && (forall j :: 0 <= j < |gs| ==> 1 <= |gs[j]| <= InThreads(count))
      && (forall j :: 0 <= j < |gs| - 1 ==> |gs[j]| == InThreads(count))
  {
    if count > 0 {
      SlicesSpec(Range(count), InThreads(count));
    }
  }

  lemma MulLess(a: nat, b: nat, k: nat)
    requires a < b && k > 0
    ensures a * k < b * k
  {
  }

  /** Group `j` starts at index `j * in_threads`. */
  lemma GroupStart(count: int, j: nat)
    requires Groups(count).Ok? && j < |Groups(count).value|
    ensures |Groups(count).value[j]| > 0 && Groups(count).value[j][0] == j * InThreads(count)
  {
    SlicesAt(Range(count), InThreads(count), j);
  }

  /** `groups.last == group` compares by value, and still singles out the final group. */
  lemma LastGroupOnly(count: int, j: nat)
    requires Groups(count).Ok? && j < |Groups(count).value|
    ensures var gs := Groups(count).value; gs[|gs| - 1] == gs[j] <==> j == |gs| - 1
  {
    var gs := Groups(count).value;
    var last := |gs| - 1;
    if j < last {
      GroupStart(count, j);
      GroupStart(count, last);
      MulLess(j, last, InThreads(count));
      assert gs[j][0] != gs[last][0];
    }
  }

  /** The servers of one group, launched together, and whether each waits for status ok. */
  datatype Batch = Batch(serverIndices: seq<nat>, waitStatusOk: bool)

  /**
   * The loop over the groups in `copy` and `spot`: each group computes
   * `is_last` and its servers wait for status ok exactly when it holds. Only
   * the final group waits.
   */
  method FanOut(count: int) returns (r: Result<seq<Batch>, SliceError>)
    ensures r.Err? <==> count <= 0
    ensures r.Ok? ==> Groups(count).Ok? && var gs := Groups(count).value;
      |r.value| == |gs| && forall j :: 0 <= j < |gs| ==> r.value[j] == Batch(gs[j], j == |gs| - 1)
  {
    GroupsSpec(count);
    var g := Groups(count);
    if g.Err? {
      return Err(g.error);
    }
    var groups := g.value;
    var batches: seq<Batch> := [];
    for j := 0 to |groups|
      invariant |batches| == j
      invariant forall k :: 0 <= k < j ==> batches[k] == Batch(groups[k], k == |groups| - 1)
    {
      var isLast := groups[|groups| - 1] == groups[j];
      LastGroupOnly(count, j);
      batches := batches + [Batch(groups[j], isLast)];
    }
    return Ok(batches);
  }

  // ---------------------------------------------------------------------
  // Positional tags
  // ---------------------------------------------------------------------

  /** The `InstanceIndex` and `InstanceCount` tags every launched server gets. */
  function PositionTags(serverIndex: nat, count: nat): seq<TagPair>
  {
    [TagPair("InstanceIndex", Decimal(serverIndex)), TagPair("InstanceCount", Decimal(count))]
  }

  /** The tags read back as the server's index and the count; no two servers share an index tag. */
  lemma PositionTagsRoundTrip(serverIndex: nat, count: nat, other: nat)
    ensures var t := PositionTags(serverIndex, count);
      && t[0].key == "InstanceIndex" && DecimalValue(t[0].value) == serverIndex
      && t[1].key == "InstanceCount" && DecimalValue(t[1].value) == count
    ensures PositionTags(other, count)[0] == PositionTags(serverIndex, count)[0] ==> other == serverIndex
  {
    DecimalRoundTrip(serverIndex);
    DecimalRoundTrip(count);
    if Decimal(other) == Decimal(serverIndex) {
      DecimalInjective(other, serverIndex);
    }
  }

  // ---------------------------------------------------------------------
  // Launch requests
  // ---------------------------------------------------------------------

  datatype PrivateIpAddress = PrivateIpAddress(address: string, primary: bool)

  datatype NetworkInterface = NetworkInterface(
    deviceIndex: nat, subnetId: string, groups: seq<string>, privateIpAddresses: seq<PrivateIpAddress>)

  /** The values a request hash holds. */
  datatype Value =
    | Nil
    | Flag(b: bool)
    | Str(s: string)
    | Num(n: int)
    | Strs(items: seq<string>)
    | Pairs(pairs: seq<(string, string)>)
    | Profile(name: Value)
    | Interfaces(nics: seq<NetworkInterface>)

  type Request = map<string, Value>

  /** Ruby truthiness: everything but nil and false. */
  predicate Truthy(v: Value)
  {
    v != Nil && v != Flag(false)
  }

  /** `h.key` on a Mash: the value, or nil when the key is missing. */
  function Field(h: map<string, string>, k: string): Value
  {
    if k in h then Str(h[k]) else Nil
  }

  /** `merge!(params)`: every key of `params` overrides, all other keys are kept. */
  function Merge(spec: Request, params: Request): (r: Request)
    ensures forall k :: k in r <==> k in spec || k in params
    ensures forall k :: k in params ==> r[k] == params[k]
    ensures forall k :: k in spec && k !in params ==> r[k] == spec[k]
  {
    spec + params
  }

  /** Networking through a single interface, with no top-level groups or subnet. */
  predicate InterfaceOnly(spec: Request)
  {
    "network_interfaces" in spec && "security_group_ids" !in spec && "subnet_id" !in spec
  }

  /** Networking through top-level groups and subnet, with no interface. */
  predicate TopLevelOnly(spec: Request)
  {
    "network_interfaces" !in spec && "security_group_ids" in spec && "subnet_id" in spec
  }

  /** The one interface a launch with a fixed private address uses. */
  function FixedInterface(subnetId: string, groups: seq<string>, ip: string): NetworkInterface
  {
    NetworkInterface(0, subnetId, groups, [PrivateIpAddress(ip, true)])
  }

  /**
   * The spot `launch_specification` before `params` is merged: image and
   * type; with a private address a single interface (device 0, the subnet,
   * the groups, that address as the primary one) and no top-level groups or
   * subnet; without one the top-level groups and subnet and no interface;
   * then the instance profile and the key pair when given.
   */
  method LaunchSpecification(imageId: string, instanceType: Value, privateIp: Option<string>, subnetId: string,
                             groups: seq<string>, iamProfile: Option<Value>, keyName: Option<string>)
    returns (spec: Request)
    ensures privateIp.Some? ==> (InterfaceOnly(spec) &&
      spec["network_interfaces"] == Interfaces([FixedInterface(subnetId, groups, privateIp.value)]))
    ensures privateIp.None? ==> (TopLevelOnly(spec) &&
      spec["security_group_ids"] == Strs(groups) && spec["subnet_id"] == Str(subnetId))
    ensures "image_id" in spec && spec["image_id"] == Str(imageId)
    ensures "instance_type" in spec && spec["instance_type"] == instanceType
    ensures "iam_instance_profile" in spec <==> iamProfile.Some?
    ensures iamProfile.Some? ==> spec["iam_instance_profile"] == Profile(iamProfile.value)
    ensures "key_name" in spec <==> keyName.Some?
    ensures keyName.Some? ==> spec["key_name"] == Str(keyName.value)
    ensures forall k :: k in spec ==> k in LaunchKeys
  {
    spec := map["image_id" := Str(imageId), "instance_type" := instanceType];
    if privateIp.Some? {
      spec := spec["network_interfaces" := Interfaces([FixedInterface(subnetId, groups, privateIp.value)])];
    } else {
      spec := spec["security_group_ids" := Strs(groups)];
      spec := spec["subnet_id" := Str(subnetId)];
    }
    if iamProfile.Some? {
      spec := spec["iam_instance_profile" := Profile(iamProfile.value)];
    }
    if keyName.Some? {
      spec := spec["key_name" := Str(keyName.value)];
    }
  }

  const LaunchKeys: set<string> := {"image_id", "instance_type", "network_interfaces", "security_group_ids",
    "subnet_id", "iam_instance_profile", "key_name"}

  /** A `params` overlay that leaves networking alone keeps the interface-or-top-level choice. */
  lemma MergeKeepsNetworking(spec: Request, params: Request)
    requires "network_interfaces" !in params && "security_group_ids" !in params && "subnet_id" !in params
    ensures InterfaceOnly(Merge(spec, params)) <==> InterfaceOnly(spec)
    ensures TopLevelOnly(Merge(spec, params)) <==> TopLevelOnly(spec)
  {
  }

  /** The spot request around a launch specification. */
  datatype SpotOption = SpotOption(
    instanceCount: nat, spotPrice: Option<string>, persistent: bool,
    blockDurationMinutes: Option<int>, launchSpecification: Request)

  /** Why a launch stops before any request is sent. */
  datatype CreatorError =
    | NoSubnet(ip: Value)       // get_subnet found nothing: `nil.subnet_id`
    | NoSecurityGroups          // JSON.parse of a missing or malformed `security_groups`
    | AlreadyRunning            // `exit 0`: the fixed address already answers ping

  // run_spot ------------------------------------------------------------

  /** `options[:private_ip_address] || tag_hash.private_ip_address`. */
  function RecipeIp(optionIp: Option<string>, tagHash: map<string, string>): Option<string>
  {
    if optionIp.Some? then optionIp
    else if "private_ip_address" in tagHash then Some(tagHash["private_ip_address"])
    else None
  }

  /** Where run_spot's servers go: the fixed private address (kept for a single server only) and the subnet. */
  datatype Addressing = Addressing(privateIp: Option<string>, subnetId: string)

  /**
   * run_spot's addressing: the subnet of the chosen address, found before
   * anything else; for a single server the address is kept (and the run
   * stops if it already answers ping), for several it is dropped.
   */
  function RunSpotAddressing(optionIp: Option<string>, tagHash: map<string, string>, count: int,
                             subnets: seq<Network.Subnet>, reachable: string -> bool)
    : (r: Result<Addressing, CreatorError>)
    ensures var ip := RecipeIp(optionIp, tagHash);
      && (r.Err? && r.error.NoSubnet? <==>
          ip.None? || Network.GetSubnet(subnets, ip.value).None?)
      && (r == Err(AlreadyRunning) <==>
          ip.Some? && Network.GetSubnet(subnets, ip.value).Some? && count == 1 && reachable(ip.value))
      && (r.Ok? ==> ip.Some? && Network.GetSubnet(subnets, ip.value) == Some(Network.Subnet(r.value.subnetId, Network.GetSubnet(subnets, ip.value).value.cidrBlock)))
      && (r.Ok? ==> r.value.privateIp == if count == 1 then ip else None)
  {
    var ip := RecipeIp(optionIp, tagHash);
    match ip
    case None => Err(NoSubnet(Nil))
    case Some(a) =>
      match Network.GetSubnet(subnets, a)
      case None => Err(NoSubnet(Str(a)))
      case Some(subnet) =>
        if count == 1 then
          if Network.Ping(ip, reachable) then Err(AlreadyRunning) else Ok(Addressing(ip, subnet.subnetId))
        else Ok(Addressing(None, subnet.subnetId))
  }

  /** `JSON.parse(tag_hash.security_groups)`. */
  function RecipeGroups(tagHash: map<string, string>): Option<seq<string>>
  {
    if "security_groups" in tagHash then Json.ParseArray(tagHash["security_groups"]) else None
  }

  /**
   * The request run_spot sends for one server, before `params`: one
   * instance at the given price, launched from the image with the recipe's
   * type, groups, profile and key pair.
   */
  method RunSpotOption(imageId: string, tagHash: map<string, string>, price: Option<string>,
                       blockDurationMinutes: Option<int>, addressing: Addressing)
    returns (r: Result<SpotOption, CreatorError>)
    ensures r.Err? <==> RecipeGroups(tagHash).None?
    ensures r.Err? ==> r.error == NoSecurityGroups
    ensures r.Ok? ==> var o := r.value; var spec := o.launchSpecification; var groups := RecipeGroups(tagHash).value;
      && o.instanceCount == 1 && o.spotPrice == price && !o.persistent
      && o.blockDurationMinutes == blockDurationMinutes
      && "image_id" in spec && "instance_type" in spec && spec["image_id"] == Str(imageId) && spec["instance_type"] == Field(tagHash, "instance_type")
      && (addressing.privateIp.Some? ==> (InterfaceOnly(spec) &&
          spec["network_interfaces"] == Interfaces([FixedInterface(addressing.subnetId, groups, addressing.privateIp.value)])))
      && (addressing.privateIp.None? ==> (TopLevelOnly(spec) &&
          spec["security_group_ids"] == Strs(groups) && spec["subnet_id"] == Str(addressing.subnetId)))
      && ("iam_instance_profile" in spec <==> "iam_instance_profile" in tagHash)
      && ("iam_instance_profile" in tagHash ==> spec["iam_instance_profile"] == Profile(Str(tagHash["iam_instance_profile"])))
      && ("key_name" in spec <==> "key_name" in tagHash)
      && ("key_name" in tagHash ==> spec["key_name"] == Str(tagHash["key_name"]))
  {
    var groups := RecipeGroups(tagHash);
    if groups.None? {
      return Err(NoSecurityGroups);
    }
    var iam := if "iam_instance_profile" in tagHash then Some(Str(tagHash["iam_instance_profile"])) else None;
    var key := if "key_name" in tagHash then Some(tagHash["key_name"]) else None;
    var spec := LaunchSpecification(imageId, Field(tagHash, "instance_type"), addressing.privateIp,
                                    addressing.subnetId, groups.value, iam, key);
    return Ok(SpotOption(1, price, false, blockDurationMinutes, spec));
  }

  /**
   * The tags run_spot copies onto each server, `format(JSON.parse(tag_hash.tags))`,
   * are the source instance's tags (in hash form), when the image carries the
   * recipe of that instance.
   */
  lemma RelaunchTags(inst: Instance, created: string)
    requires Ami.RecipeSafe(inst, created)
    ensures var h := Ami.ImageTagHash(inst, created);
      && "tags" in h && Json.ParseObject(h["tags"]).Some?
      && Formatted(AsTemplate(AsTags(Json.ParseObject(h["tags"]).value)), map[]) == RubyHash(inst.tags)
  {
    Ami.RecipeRoundTrip(inst, created);
    var rh := RubyHash(inst.tags);
    assert AsTags(AsPairs(rh)) == rh;
    forall i | 0 <= i < |inst.tags| ensures NoOpening(inst.tags[i].value) {
    }
    HashFormatRoundTrip(inst.tags, map[]);
  }

  /** run_spot relaunches with the source instance's groups, type, key pair and profile name. */
  lemma RunSpotFromRecipe(inst: Instance, created: string)
    requires Ami.RecipeSafe(inst, created)
    ensures var h := Ami.ImageTagHash(inst, created);
      && RecipeGroups(h) == Some(inst.securityGroupIds)
      && Field(h, "instance_type") == Str(inst.instanceType)
      && ("key_name" in h <==> inst.keyName.Some?)
      && (inst.keyName.Some? ==> Field(h, "key_name") == Str(inst.keyName.value))
      && ("iam_instance_profile" in h <==> inst.iamProfileArn.Some?)
      && (inst.iamProfileArn.Some? ==>
          Field(h, "iam_instance_profile") == Str(ArnName(inst.iamProfileArn.value).GetOr("")))
      && RecipeIp(None, h) == Some(inst.privateIp.GetOr(""))
  {
    Ami.RecipeRoundTrip(inst, created);
  }

  // spot ----------------------------------------------------------------

  /**
   * spot's private address: the explicit option when given; otherwise the
   * source instance's address when renewing; otherwise none.
   */
  function SpotPrivateIp(optionIp: Option<string>, renew: bool, sourceIp: Option<string>): (ip: Option<string>)
    ensures optionIp.Some? ==> ip == optionIp
    ensures optionIp.None? && renew ==> ip == sourceIp
    ensures optionIp.None? && !renew ==> ip.None?
  {
    if optionIp.None? then (if renew then sourceIp else None) else optionIp
  }

  /** The instance profile name `arn.split('/').last`, nil when it has none. */
  function ProfileOf(inst: Instance): Option<Value>
  {
    match inst.iamProfileArn
    case None => None
    case Some(arn) => Some(match ArnName(arn) case Some(n) => Str(n) case None => Nil)
  }

  /**
   * The request spot sends for one server, before `params`: the source
   * instance's type, groups, profile and key pair; with a private address
   * its subnet is looked up (and a missing subnet stops the launch), without
   * one the source instance's subnet is used.
   */
  method SpotRequestOption(inst: Instance, imageId: string, price: Option<string>, persistent: bool,
                           blockDurationMinutes: Option<int>, optionIp: Option<string>, renew: bool,
                           subnets: seq<Network.Subnet>)
    returns (r: Result<SpotOption, CreatorError>)
    ensures var ip := SpotPrivateIp(optionIp, renew, inst.privateIp);
      r.Err? <==> ip.Some? && Network.GetSubnet(subnets, ip.value).None?
    ensures r.Ok? ==> var o := r.value; var spec := o.launchSpecification;
      var ip := SpotPrivateIp(optionIp, renew, inst.privateIp);
      && o.instanceCount == 1 && o.spotPrice == price && o.persistent == persistent
      && o.blockDurationMinutes == blockDurationMinutes
      && "image_id" in spec && "instance_type" in spec && spec["image_id"] == Str(imageId) && spec["instance_type"] == Str(inst.instanceType)
      && (ip.Some? ==> (InterfaceOnly(spec) && Network.GetSubnet(subnets, ip.value).Some? &&
          spec["network_interfaces"] == Interfaces([FixedInterface(
            Network.GetSubnet(subnets, ip.value).value.subnetId, inst.securityGroupIds, ip.value)])))
      && (ip.None? ==> (TopLevelOnly(spec) &&
          spec["security_group_ids"] == Strs(inst.securityGroupIds) && spec["subnet_id"] == Str(inst.subnetId)))
      && ("iam_instance_profile" in spec <==> inst.iamProfileArn.Some?)
      && (inst.iamProfileArn.Some? ==> spec["iam_instance_profile"] == Profile(ProfileOf(inst).value))
      && ("key_name" in spec <==> inst.keyName.Some?)
      && (inst.keyName.Some? ==> spec["key_name"] == Str(inst.keyName.value))
  {
    var ip := SpotPrivateIp(optionIp, renew, inst.privateIp);
    var subnetId := inst.subnetId;
    if ip.Some? {
      var subnet := Network.GetSubnet(subnets, ip.value);
      if subnet.None? {
        return Err(NoSubnet(Str(ip.value)));
      }
      subnetId := subnet.value.subnetId;
    }
    var spec := LaunchSpecification(imageId, Str(inst.instanceType), ip, subnetId,
                                    inst.securityGroupIds, ProfileOf(inst), inst.keyName);
    return Ok(SpotOption(1, price, persistent, blockDurationMinutes, spec));
  }

  // copy ----------------------------------------------------------------

  /** The subnet `copy` launches into, from the merged request's private address. */
  function CopySubnet(request: Request, inst: Instance, subnets: seq<Network.Subnet>): Result<string, CreatorError>
  {
    if "private_ip_address" !in request || !Truthy(request["private_ip_address"]) then Ok(inst.subnetId)
    else
      match request["private_ip_address"]
      case Str(a) =>
        (match Network.GetSubnet(subnets, a)
         case Some(s) => Ok(s.subnetId)
         case None => Err(NoSubnet(Str(a))))
      case v => Err(NoSubnet(v))
  }

  /**
   * The `copy` request before `params` and the subnet: one server from the
   * image, with the source instance's groups, type and placement, the
   * explicit private address when given, and the source's profile name and
   * key pair when it has them.
   */
  function CopyBase(inst: Instance, imageId: string, optionIp: Option<string>): Request
  {
    CopyFixed(inst, imageId) + CopyOptional(inst, optionIp)
  }

  function CopyFixed(inst: Instance, imageId: string): Request
  {
    map["image_id" := Str(imageId), "min_count" := Num(1), "max_count" := Num(1),
      "security_group_ids" := Strs(inst.securityGroupIds), "instance_type" := Str(inst.instanceType),
      "placement" := Pairs(inst.placement)]
  }

  function CopyOptional(inst: Instance, optionIp: Option<string>): Request
  {
    (if optionIp.Some? then map["private_ip_address" := Str(optionIp.value)] else map[]) + CopyOptionalTail(inst)
  }

  /** The profile and the key pair, when the source instance has them. */
  function CopyOptionalTail(inst: Instance): Request
  {
    (if inst.iamProfileArn.Some? then map["iam_instance_profile" := Profile(ProfileOf(inst).value)] else map[])
    + (if inst.keyName.Some? then map["key_name" := Str(inst.keyName.value)] else map[])
  }

  /** The fields every `copy` request starts from. */
  lemma CopyBaseFixed(inst: Instance, imageId: string, optionIp: Option<string>)
    ensures var r := CopyBase(inst, imageId, optionIp);
      && "image_id" in r && r["image_id"] == Str(imageId)
      && "min_count" in r && r["min_count"] == Num(1) && "max_count" in r && r["max_count"] == Num(1)
      && "security_group_ids" in r && r["security_group_ids"] == Strs(inst.securityGroupIds)
      && "instance_type" in r && r["instance_type"] == Str(inst.instanceType)
      && "placement" in r && r["placement"] == Pairs(inst.placement)
      && "subnet_id" !in r
  {
    CopyOptionalKeys(inst, optionIp);
    CopyFixedFields(inst, imageId);
  }

  lemma CopyFixedFields(inst: Instance, imageId: string)
    ensures var f := CopyFixed(inst, imageId);
      && "image_id" in f && f["image_id"] == Str(imageId)
      && "min_count" in f && f["min_count"] == Num(1) && "max_count" in f && f["max_count"] == Num(1)
      && "security_group_ids" in f && f["security_group_ids"] == Strs(inst.securityGroupIds)
      && "instance_type" in f && f["instance_type"] == Str(inst.instanceType)
      && "placement" in f && f["placement"] == Pairs(inst.placement)
      && "subnet_id" !in f
  {
  }

  /** The optional part of the base request holds none of the fixed keys. */
  lemma CopyOptionalKeys(inst: Instance, optionIp: Option<string>)
    ensures var o := CopyOptional(inst, optionIp);
      && "image_id" !in o && "min_count" !in o && "max_count" !in o && "security_group_ids" !in o
      && "instance_type" !in o && "placement" !in o && "subnet_id" !in o
  {
    assert CopyOptional(inst, optionIp).Keys <= {"private_ip_address", "iam_instance_profile", "key_name"};
  }

  /** The fields a `copy` request has only when the option or the source instance supplies them. */
  lemma CopyBaseOptional(inst: Instance, imageId: string, optionIp: Option<string>)
    ensures var r := CopyBase(inst, imageId, optionIp);
      && ("private_ip_address" in r <==> optionIp.Some?)
      && (optionIp.Some? ==> r["private_ip_address"] == Str(optionIp.value))
      && ("iam_instance_profile" in r <==> inst.iamProfileArn.Some?)
      && (inst.iamProfileArn.Some? ==> r["iam_instance_profile"] == Profile(ProfileOf(inst).value))
      && ("key_name" in r <==> inst.keyName.Some?)
      && (inst.keyName.Some? ==> r["key_name"] == Str(inst.keyName.value))
  {
    CopyBaseIp(inst, imageId, optionIp);
    CopyBaseIam(inst, imageId, optionIp);
    CopyBaseKeyName(inst, imageId, optionIp);
  }

  lemma CopyBaseIp(inst: Instance, imageId: string, optionIp: Option<string>)
    ensures var r := CopyBase(inst, imageId, optionIp);
      && ("private_ip_address" in r <==> optionIp.Some?)
      && (optionIp.Some? ==> r["private_ip_address"] == Str(optionIp.value))
  {
    var k := "private_ip_address";
    var f, o := CopyFixed(inst, imageId), CopyOptional(inst, optionIp);
    assert k !in f;
    var ip := if optionIp.Some? then map[k := Str(optionIp.value)] else map[];
    var rest := CopyOptionalTail(inst);
    assert k !in rest;
    assert o == ip + rest;
  }

  lemma CopyBaseIam(inst: Instance, imageId: string, optionIp: Option<string>)
    ensures var r := CopyBase(inst, imageId, optionIp);
      && ("iam_instance_profile" in r <==> inst.iamProfileArn.Some?)
      && (inst.iamProfileArn.Some? ==> r["iam_instance_profile"] == Profile(ProfileOf(inst).value))
  {
    var k := "iam_instance_profile";
    var f, o := CopyFixed(inst, imageId), CopyOptional(inst, optionIp);
    assert k !in f;
    var ip := if optionIp.Some? then map["private_ip_address" := Str(optionIp.value)] else map[];
    assert k !in ip;
    var key := if inst.keyName.Some? then map["key_name" := Str(inst.keyName.value)] else map[];
    assert k !in key;
  }

  lemma CopyBaseKeyName(inst: Instance, imageId: string, optionIp: Option<string>)
    ensures var r := CopyBase(inst, imageId, optionIp);
      && ("key_name" in r <==> inst.keyName.Some?)
      && (inst.keyName.Some? ==> r["key_name"] == Str(inst.keyName.value))
  {
    var k := "key_name";
    var f := CopyFixed(inst, imageId);
    assert k !in f;
  }

  /**
   * The run_instances request `copy` sends for one server: `params` merged
   * over the base request, then `subnet_id` set from the merged private
   * address, or the source's subnet when there is none.
   */
  method CopyRequest(inst: Instance, imageId: string, optionIp: Option<string>, params: Request,
                     subnets: seq<Network.Subnet>)
    returns (r: Result<Request, CreatorError>)
    ensures var merged := Merge(CopyBase(inst, imageId, optionIp), params);
      && (r.Err? <==> CopySubnet(merged, inst, subnets).Err?)
      && (r.Ok? ==> r.value == merged["subnet_id" := Str(CopySubnet(merged, inst, subnets).value)])
  {
    var request := CopyFixed(inst, imageId);
    var ipPart, profilePart, keyPart: Request := map[], map[], map[];
    if optionIp.Some? {
      ipPart := map["private_ip_address" := Str(optionIp.value)];
    }
    if inst.iamProfileArn.Some? {
      profilePart := map["iam_instance_profile" := Profile(ProfileOf(inst).value)];
    }
    if inst.keyName.Some? {
      keyPart := map["key_name" := Str(inst.keyName.value)];
    }
    var extra := ipPart + (profilePart + keyPart);
    request := Merge(request + extra, params);
    var subnet := CopySubnet(request, inst, subnets);
    if subnet.Err? {
      return Err(subnet.error);
    }
    request := request["subnet_id" := Str(subnet.value)];
    return Ok(request);
  }

  /**
   * Without a private address in `params`, copy launches into the subnet of
   * the explicit address when one is given, and into the source's subnet
   * otherwise.
   */
  lemma CopySubnetChoice(inst: Instance, imageId: string, optionIp: Option<string>, params: Request,
                         subnets: seq<Network.Subnet>)
    requires "private_ip_address" !in params
    ensures var s := CopySubnet(Merge(CopyBase(inst, imageId, optionIp), params), inst, subnets);
      && (optionIp.None? ==> s == Ok(inst.subnetId))
      && (optionIp.Some? ==> (s.Ok? <==> Network.GetSubnet(subnets, optionIp.value).Some?))
      && (optionIp.Some? && s.Ok? ==> s.value == Network.GetSubnet(subnets, optionIp.value).value.subnetId)
  {
    CopyBaseOptional(inst, imageId, optionIp);
  }
}
