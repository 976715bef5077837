/**
 * The provider's records as this tool reads them from describe calls. Only the
 * attributes the modelled code looks at are kept.
 */
module Resources {
  import opened Common

  /** One `{key, value}` tag. */
  datatype TagPair = TagPair(key: string, value: string)

  /** The `ebs` part of an instance's block-device mapping. */
  datatype InstanceEbs = InstanceEbs(volumeId: string, deleteOnTermination: bool)

  /** A block-device mapping as describe_instances reports it; `ebs` is nil for instance-store devices. */
  datatype InstanceBlockDevice = InstanceBlockDevice(deviceName: string, ebs: Option<InstanceEbs>)

  /**
   * An instance. `placement` holds the pairs of `placement.to_hash` in order
   * (availability_zone among them); `iamProfileArn` is the ARN of the attached
   * IAM instance profile; `lifecycle` is nil for on-demand instances.
   */
  datatype Instance = Instance(
    instanceId: string,
    tags: seq<TagPair>,
    securityGroupIds: seq<string>,
    privateIp: Option<string>,
    publicIp: Option<string>,
    subnetId: string,
    instanceType: string,
    placement: seq<(string, string)>,
    iamProfileArn: Option<string>,
    keyName: Option<string>,
    blockDevices: seq<InstanceBlockDevice>,
    lifecycle: Option<string>)

  /** The `ebs` part of an image's block-device mapping. */
  datatype ImageEbs = ImageEbs(snapshotId: string)

  /** A block-device mapping as describe_images reports it; `ebs` is nil for ephemeral devices. */
  datatype ImageBlockDevice = ImageBlockDevice(deviceName: string, ebs: Option<ImageEbs>)

  /** A private image (AMI). */
  datatype Image = Image(imageId: string, tags: seq<TagPair>, blockDevices: seq<ImageBlockDevice>)

  /** `placement.availability_zone`, rendered by `join` (nil renders as ""). */
  function AvailabilityZone(inst: Instance): string
  {
    PairLookup(inst.placement, "availability_zone").GetOr("")
  }

  /** The value of the first pair with key `k`. */
  function PairLookup(ps: seq<(string, string)>, k: string): (r: Option<string>)
    ensures r.Some? <==> exists i :: 0 <= i < |ps| && ps[i].0 == k
  {
    if ps == [] then None
    else if ps[0].0 == k then Some(ps[0].1)
    else
      var r := PairLookup(ps[1..], k);
      assert forall i :: 1 <= i < |ps| ==> ps[i] == ps[1..][i - 1];
      r
  }
}
