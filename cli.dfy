/**
 * Cli: the decisions the ec2ex command line takes before its EC2 calls:
 * network-ACL deny rules (`regist_deny_acl`, `delete_deny_acl_all`) and the
 * calls `deregister_image` makes for the old images. The ACL entries are the
 * entry list of the ACL describe returned; the calls are returned as values.
 */
module Cli {
  import opened Common
  import opened Resources
  import Ami

  // ---------------------------------------------------------------------
  // Network ACL entries
  // ---------------------------------------------------------------------

  datatype AclEntry = AclEntry(ruleNumber: int, egress: bool, cidrBlock: string, ruleAction: string, protocol: string)

  const AnyCidr := "0.0.0.0/0"

  /** An ingress rule allowing every address. */
  predicate IsAllowAny(e: AclEntry)
  {
    !e.egress && e.cidrBlock == AnyCidr && e.ruleAction == "allow"
  }

  /** The position of the first allow-any rule, if any. */
  function FirstAllowAny(entries: seq<AclEntry>): (r: Option<nat>)
    ensures r.None? <==> forall i :: 0 <= i < |entries| ==> !IsAllowAny(entries[i])
    ensures r.Some? ==> r.value < |entries| && IsAllowAny(entries[r.value])
    ensures r.Some? ==> forall j :: 0 <= j < r.value ==> !IsAllowAny(entries[j])
  {
    FirstWhere(entries, IsAllowAny)
  }

  /** Without an allow-any rule, `.first.rule_number` fails on nil. */
  datatype AclError = NoAllowAnyRule

  /** The number of the first ingress allow-any rule. */
  function AllowAnyRuleNumber(entries: seq<AclEntry>): (r: Result<int, AclError>)
    ensures r.Err? <==> forall i :: 0 <= i < |entries| ==> !IsAllowAny(entries[i])
    ensures r.Ok? ==> exists i :: 0 <= i < |entries| && IsAllowAny(entries[i]) && entries[i].ruleNumber == r.value
  {
    match FirstAllowAny(entries)
    case None => Err(NoAllowAnyRule)
    case Some(i) => Ok(entries[i].ruleNumber)
  }

  /** An ingress rule evaluated before the allow-any rule numbered `allow`. */
  predicate IsDenyRule(e: AclEntry, allow: int)
  {
    !e.egress && e.ruleNumber < allow
  }

  /** `select`: the deny rules, in entry order, each as often as it occurs. */
  function DenyCandidates(entries: seq<AclEntry>, allow: int): (r: seq<AclEntry>)
    ensures forall e :: multiset(r)[e] == if IsDenyRule(e, allow) then multiset(entries)[e] else 0
  {
    if entries == [] then []
    else
      var n := |entries| - 1;
      assert entries == entries[..n] + [entries[n]];
      DenyCandidates(entries[..n], allow) + (if IsDenyRule(entries[n], allow) then [entries[n]] else [])
  }

  predicate SortedByNumber(rules: seq<AclEntry>)
  {
    forall i, j :: 0 <= i < j < |rules| ==> rules[i].ruleNumber <= rules[j].ruleNumber
  }

  function InsertByNumber(e: AclEntry, rules: seq<AclEntry>): (r: seq<AclEntry>)
    requires SortedByNumber(rules)
    ensures SortedByNumber(r)
    ensures multiset(r) == multiset(rules) + multiset{e}
  {
    if rules == [] then [e]
    else if e.ruleNumber <= rules[0].ruleNumber then
      ConsSortedByNumber(e, rules);
      [e] + rules
    else
      var rest := InsertByNumber(e, rules[1..]);
      LowerBound(rules, rest, e);
      ConsSortedByNumber(rules[0], rest);
      assert rules == [rules[0]] + rules[1..];
      [rules[0]] + rest
  }

  lemma ConsSortedByNumber(e: AclEntry, rules: seq<AclEntry>)
    requires SortedByNumber(rules) && (rules == [] || e.ruleNumber <= rules[0].ruleNumber)
    ensures SortedByNumber([e] + rules)
  {
  }

  /** Every element of a permutation of `rules[1..]` and `e` is numbered at least `rules[0]`. */
  lemma LowerBound(rules: seq<AclEntry>, rest: seq<AclEntry>, e: AclEntry)
    requires SortedByNumber(rules) && rules != []
    requires multiset(rest) == multiset(rules[1..]) + multiset{e}
    requires rules[0].ruleNumber <= e.ruleNumber
    ensures rest == [] || rules[0].ruleNumber <= rest[0].ruleNumber
  {
    if rest != [] {
      assert rest[0] in multiset(rest);
      if rest[0] != e {
        assert rest[0] in multiset(rules[1..]);
        var j :| 0 <= j < |rules[1..]| && rules[1..][j] == rest[0];
        assert rules[j + 1] == rest[0];
      }
    }
  }

  /** `sort_by { |r| r.rule_number }`: ascending, and a permutation of the input. */
  function SortByNumber(rules: seq<AclEntry>): (r: seq<AclEntry>)
    ensures SortedByNumber(r)
    ensures multiset(r) == multiset(rules)
  {
    if rules == [] then []
    else
      var n := |rules| - 1;
      assert rules == rules[..n] + [rules[n]];
      InsertByNumber(rules[n], SortByNumber(rules[..n]))
  }

  /** The ingress rules numbered below the allow-any rule, by ascending number. */
  function DenyRules(entries: seq<AclEntry>, allow: int): seq<AclEntry>
  {
    SortByNumber(DenyCandidates(entries, allow))
  }

  /** The deny rules are sorted and are exactly the ingress entries below `allow`, with their multiplicities. */
  lemma DenyRulesSpec(entries: seq<AclEntry>, allow: int)
    ensures SortedByNumber(DenyRules(entries, allow))
    ensures forall e :: e in DenyRules(entries, allow) <==> e in entries && IsDenyRule(e, allow)
    ensures forall e :: (multiset(DenyRules(entries, allow))[e] ==
                         if IsDenyRule(e, allow) then multiset(entries)[e] else 0)
  {
    var d := DenyRules(entries, allow);
    assert multiset(d) == multiset(DenyCandidates(entries, allow));
    forall e ensures e in d <==> e in entries && IsDenyRule(e, allow) {
      assert e in d <==> e in multiset(d);
      assert e in entries <==> e in multiset(entries);
    }
  }

  /** `deny_rules.empty? ? 1 : deny_rules.last.rule_number + 1`. */
  function NextRuleNumber(denyRules: seq<AclEntry>): int
  {
    if denyRules == [] then 1 else denyRules[|denyRules| - 1].ruleNumber + 1
  }

  /**
   * The next number is 1 when there is no deny rule; otherwise it is one
   * more than the largest deny rule number, so above every deny rule.
   */
  lemma NextRuleNumberSpec(entries: seq<AclEntry>, allow: int)
    ensures var next := NextRuleNumber(DenyRules(entries, allow));
      && ((forall e :: e in entries ==> !IsDenyRule(e, allow)) ==> next == 1)
      && (forall e :: e in entries && IsDenyRule(e, allow) ==> e.ruleNumber < next)
      && ((exists e :: e in entries && IsDenyRule(e, allow)) ==>
          exists e :: e in entries && IsDenyRule(e, allow) && e.ruleNumber + 1 == next)
  {
    DenyRulesSpec(entries, allow);
    var d := DenyRules(entries, allow);
    if d != [] {
      var last := d[|d| - 1];
      assert last in d;
      forall e | e in entries && IsDenyRule(e, allow) ensures e.ruleNumber < NextRuleNumber(d) {
        assert e in d;
        var i :| 0 <= i < |d| && d[i] == e;
        assert i == |d| - 1 || d[i].ruleNumber <= last.ruleNumber;
      }
    } else {
      forall e | e in entries ensures !IsDenyRule(e, allow) {
        assert e !in d;
      }
    }
  }

  /** The entry `create_network_acl_entry` is asked to add. */
  datatype CreateEntry = CreateEntry(networkAclId: string, entry: AclEntry)

  /** Whether some deny rule already blocks exactly `ip`. */
  predicate Blocks(entries: seq<AclEntry>, allow: int, ip: string)
  {
    exists e :: e in entries && IsDenyRule(e, allow) && e.cidrBlock == ip + "/32"
  }

  /**
   * `regist_deny_acl`: fails without an allow-any rule; adds nothing when a
   * deny rule already has `<ip>/32`; otherwise an ingress `deny` entry for
   * every protocol on `<ip>/32`, numbered after the last deny rule.
   */
  function RegistDenyAcl(aclId: string, entries: seq<AclEntry>, ip: string): (r: Result<Option<CreateEntry>, AclError>)
    ensures r.Err? <==> forall i :: 0 <= i < |entries| ==> !IsAllowAny(entries[i])
    ensures r.Ok? ==> var allow := AllowAnyRuleNumber(entries).value;
      && (r.value.None? <==> Blocks(entries, allow, ip))
      && (r.value.Some? ==> r.value.value == CreateEntry(aclId,
            AclEntry(NextRuleNumber(DenyRules(entries, allow)), false, ip + "/32", "deny", "-1")))
  {
    match AllowAnyRuleNumber(entries)
    case Err(e) => Err(e)
    case Ok(allow) =>
      var denyRules := DenyRules(entries, allow);
      DenyRulesSpec(entries, allow);
      if exists e :: e in denyRules && e.cidrBlock == ip + "/32" then Ok(None)
      else Ok(Some(CreateEntry(aclId, AclEntry(NextRuleNumber(denyRules), false, ip + "/32", "deny", "-1"))))
  }

  /** A created entry is not an allow-any rule, so appending it keeps the first one. */
  lemma FirstAllowAnyAppend(entries: seq<AclEntry>, e: AclEntry)
    requires !IsAllowAny(e)
    ensures FirstAllowAny(entries + [e]) == FirstAllowAny(entries)
  {
    if entries != [] {
      assert (entries + [e])[1..] == entries[1..] + [e];
      FirstAllowAnyAppend(entries[1..], e);
    }
  }

  /**
   * Registering the same address again adds nothing, as long as the entry
   * created the first time was numbered below the allow-any rule.
   */
  lemma RegistDenyAclIdempotent(aclId: string, entries: seq<AclEntry>, ip: string)
    requires RegistDenyAcl(aclId, entries, ip).Ok?
    requires var r := RegistDenyAcl(aclId, entries, ip).value;
      r.Some? ==> r.value.entry.ruleNumber < AllowAnyRuleNumber(entries).value
    ensures var r := RegistDenyAcl(aclId, entries, ip).value;
      var after := if r.Some? then entries + [r.value.entry] else entries;
      RegistDenyAcl(aclId, after, ip) == Ok(None)
  {
    var r := RegistDenyAcl(aclId, entries, ip).value;
    if r.Some? {
      var e := r.value.entry;
      FirstAllowAnyAppend(entries, e);
      var after := entries + [e];
      var allow := AllowAnyRuleNumber(entries).value;
      assert FirstAllowAny(after) == FirstAllowAny(entries);
      assert after[FirstAllowAny(after).value] == entries[FirstAllowAny(entries).value];
      assert AllowAnyRuleNumber(after) == Ok(allow);
      assert e in after && IsDenyRule(e, allow);
      assert Blocks(after, allow, ip);
    }
  }

  /** The entry `delete_network_acl_entry` is asked to remove. */
  datatype DeleteEntry = DeleteEntry(networkAclId: string, ruleNumber: int, egress: bool)

  /** One ingress deletion per rule, in the rules' order. */
  function Deletions(aclId: string, rules: seq<AclEntry>): (r: seq<DeleteEntry>)
    ensures |r| == |rules| && forall i :: 0 <= i < |rules| ==> r[i] == DeleteEntry(aclId, rules[i].ruleNumber, false)
  {
    seq(|rules|, i requires 0 <= i < |rules| => DeleteEntry(aclId, rules[i].ruleNumber, false))
  }

  /**
   * `delete_deny_acl_all`: one ingress deletion per deny rule, by ascending
   * rule number; it fails without an allow-any rule.
   */
  method DeleteDenyAclAll(aclId: string, entries: seq<AclEntry>) returns (r: Result<seq<DeleteEntry>, AclError>)
    ensures r.Err? <==> forall i :: 0 <= i < |entries| ==> !IsAllowAny(entries[i])
    ensures r.Ok? ==> r.value == Deletions(aclId, DenyRules(entries, AllowAnyRuleNumber(entries).value))
  {
    var allow := AllowAnyRuleNumber(entries);
    if allow.Err? {
      return Err(allow.error);
    }
    var denyRules := DenyRules(entries, allow.value);
    var deletions := DeleteEach(aclId, denyRules);
    return Ok(deletions);
  }

  /** The `deny_rules.each` loop: one `delete_network_acl_entry` request per rule, in order. */
  method DeleteEach(aclId: string, rules: seq<AclEntry>) returns (deletions: seq<DeleteEntry>)
    ensures deletions == Deletions(aclId, rules)
  {
    deletions := [];
    for i := 0 to |rules|
      invariant |deletions| == i
      invariant forall k :: 0 <= k < i ==> deletions[k] == DeleteEntry(aclId, rules[k].ruleNumber, false)
    {
      deletions := deletions + [DeleteEntry(aclId, rules[i].ruleNumber, false)];
    }
  }

  /** Every rule of `rules` gets its deletion, and every deletion is of a rule of `rules`. */
  lemma DeletionsExact(aclId: string, rules: seq<AclEntry>)
    ensures forall e :: e in rules ==> DeleteEntry(aclId, e.ruleNumber, false) in Deletions(aclId, rules)
    ensures forall d :: d in Deletions(aclId, rules) ==>
      exists e :: e in rules && d == DeleteEntry(aclId, e.ruleNumber, false)
    ensures SortedByNumber(rules) ==>
      forall i, j :: 0 <= i < j < |rules| ==> Deletions(aclId, rules)[i].ruleNumber <= Deletions(aclId, rules)[j].ruleNumber
  {
    var ds := Deletions(aclId, rules);
    forall e | e in rules ensures DeleteEntry(aclId, e.ruleNumber, false) in ds {
      var i :| 0 <= i < |rules| && rules[i] == e;
      assert ds[i] == DeleteEntry(aclId, e.ruleNumber, false);
    }
    forall d | d in ds ensures exists e :: e in rules && d == DeleteEntry(aclId, e.ruleNumber, false) {
      var i :| 0 <= i < |ds| && ds[i] == d;
      assert rules[i] in rules;
    }
  }

  /**
   * The deletions name exactly the ingress rules numbered below the
   * allow-any rule, in ascending order, and never an egress rule.
   */
  lemma DeleteDenyAclAllExact(aclId: string, entries: seq<AclEntry>)
    requires AllowAnyRuleNumber(entries).Ok?
    ensures var allow := AllowAnyRuleNumber(entries).value;
      var deletions := Deletions(aclId, DenyRules(entries, allow));
      && (forall e :: e in entries && IsDenyRule(e, allow) ==> DeleteEntry(aclId, e.ruleNumber, false) in deletions)
      && (forall d :: d in deletions ==>
            exists e :: e in entries && IsDenyRule(e, allow) && d == DeleteEntry(aclId, e.ruleNumber, false))
      && forall i, j :: 0 <= i < j < |deletions| ==> deletions[i].ruleNumber <= deletions[j].ruleNumber
  {
    var allow := AllowAnyRuleNumber(entries).value;
    var denyRules := DenyRules(entries, allow);
    DenyRulesSpec(entries, allow);
    DeletionsExact(aclId, denyRules);
  }

  // ---------------------------------------------------------------------
  // deregister_image
  // ---------------------------------------------------------------------

  /** The EC2 calls `deregister_image` makes. */
  datatype Ec2Call = DeregisterImage(imageId: string) | DeleteSnapshot(snapshotId: string)

  /** The calls for one image: deregister it, then delete each snapshot behind an EBS mapping. */
  function ImageCalls(image: Image): seq<Ec2Call>
  {
    [DeregisterImage(image.imageId)] + SnapshotCalls(Ami.EbsSnapshotIds(image.blockDevices))
  }

  function SnapshotCalls(ids: seq<string>): (r: seq<Ec2Call>)
    ensures |r| == |ids| && forall i :: 0 <= i < |ids| ==> r[i] == DeleteSnapshot(ids[i])
  {
    seq(|ids|, i requires 0 <= i < |ids| => DeleteSnapshot(ids[i]))
  }

  function CallsFor(images: seq<Image>): seq<Ec2Call>
  {
    if images == [] then [] else
      var n := |images| - 1;
      CallsFor(images[..n]) + ImageCalls(images[n])
  }

  /**
   * The images deregistered are exactly the given ones, and the snapshots
   * deleted exactly those behind an EBS mapping of one of them.
   */
  lemma {:induction false} CallsForSpec(images: seq<Image>)
    ensures forall id :: DeregisterImage(id) in CallsFor(images) <==> exists x :: x in images && x.imageId == id
    ensures forall id :: DeleteSnapshot(id) in CallsFor(images) <==>
      exists x :: x in images && Ami.BacksDevice(x.blockDevices, id)
  {
    if images != [] {
      var n := |images| - 1;
      var last := images[n];
      CallsForSpec(images[..n]);
      Ami.EbsSnapshotIdsSpec(last.blockDevices);
      assert images == images[..n] + [last];
      var ids := Ami.EbsSnapshotIds(last.blockDevices);
      forall id ensures DeleteSnapshot(id) in SnapshotCalls(ids) <==> id in ids {
        if DeleteSnapshot(id) in SnapshotCalls(ids) {
          var i :| 0 <= i < |ids| && SnapshotCalls(ids)[i] == DeleteSnapshot(id);
        }
        if id in ids {
          var i :| 0 <= i < |ids| && ids[i] == id;
          assert SnapshotCalls(ids)[i] == DeleteSnapshot(id);
        }
      }
      forall id ensures DeregisterImage(id) !in SnapshotCalls(ids) {
      }
    }
  }

  /**
   * `deregister_image`: for each old image of the search results, in turn,
   * deregister it and delete the snapshots of its EBS mappings.
   */
  method DeregisterOldImages(images: seq<Image>, olderThan: nat) returns (calls: seq<Ec2Call>)
    ensures calls == CallsFor(Ami.OldImages(images, olderThan))
  {
    var oldImages := Ami.GetOldImages(images, olderThan);
    calls := [];
    for i := 0 to |oldImages|
      invariant calls == CallsFor(oldImages[..i])
    {
      CallsForStep(oldImages, i);
      calls := calls + ImageCalls(oldImages[i]);
    }
    assert oldImages[..|oldImages|] == oldImages;
  }

  lemma CallsForStep(images: seq<Image>, i: nat)
    requires i < |images|
    ensures CallsFor(images[..i + 1]) == CallsFor(images[..i]) + ImageCalls(images[i])
  {
    assert images[..i + 1][..i] == images[..i];
  }

  /**
   * Only images `get_old_images` gives up are deregistered, and only
   * snapshots behind their EBS mappings are deleted.
   */
  lemma DeregisterOldImagesExact(images: seq<Image>, olderThan: nat)
    ensures var given := Ami.OldImages(images, olderThan);
      && (forall id :: DeregisterImage(id) in CallsFor(given) <==> exists x :: x in given && x.imageId == id)
      && (forall id :: DeleteSnapshot(id) in CallsFor(given) <==> exists x :: x in given && Ami.BacksDevice(x.blockDevices, id))
      && (forall x :: x in given ==> x in images)
  {
    CallsForSpec(Ami.OldImages(images, olderThan));
    Ami.OldImagesEligible(images, olderThan);
  }
}
