/**
 * `Ec2ex::Ami` (lib/ec2ex/ami.rb): naming and tagging a new image, choosing
 * the latest image of a name, choosing the images that fall out of the
 * retention window, and the snapshots no image refers to. The describe,
 * create, copy and delete calls are left to the caller: their results come
 * in as parameters and the decisions go out as values.
 */
module Ami {
  import opened Common
  import opened Resources
  import opened Tag
  import Json

  /** What the AMI workflows raise. */
  datatype AmiError =
    | NameTagMissing  // `tags['Name'] + ...` on an instance without a Name tag (nil has no `+`)

  // ---------------------------------------------------------------------
  // create_image_with_instance: the image name and the recipe tags
  // ---------------------------------------------------------------------

  /** The name `create_image_with_instance` gives the image: the Name tag, a dot, the timestamp. */
  function ImageName(instTags: seq<TagPair>, stamp: string): (r: Result<string, AmiError>)
    ensures r.Err? <==> "Name" !in HashOf(instTags)
  {
    var tags := HashOf(instTags);
    if "Name" in tags then Ok(tags["Name"] + "." + stamp) else Err(NameTagMissing)
  }

  /** A `strftime('%Y%m%d%H%M%S')` timestamp: fourteen digits. */
  predicate IsStamp(stamp: string)
  {
    |stamp| == 14 && forall k :: 0 <= k < |stamp| ==> IsDigit(stamp[k])
  }

  /**
   * The timestamp is what follows the last dot of the image name, and what
   * precedes that dot is the Name tag.
   */
  lemma ImageNameParts(instTags: seq<TagPair>, stamp: string)
    requires "Name" in HashOf(instTags) && IsStamp(stamp)
    ensures var n := ImageName(instTags, stamp).value;
      AfterLast(n, '.') == stamp &&
      n[..|n| - |stamp| - 1] == HashOf(instTags)["Name"] &&
      n[|n| - |stamp| - 1] == '.'
  {
    var name := HashOf(instTags)["Name"];
    AfterLastOfJoin(name, '.', stamp);
    var n := name + "." + stamp;
    assert n[..|n| - |stamp| - 1] == name;
  }

  /** The tags `create_image_with_instance` puts on the image: the recipe formatted with no preset. */
  function AmiTags(inst: Instance, created: string): seq<TagPair>
  {
    Formatted(Recipe(inst, created), map[])
  }

  /** No value that goes into the recipe holds a `${` (a template placeholder). */
  predicate RecipeSafe(inst: Instance, created: string)
  {
    && NoOpening(created)
    && (forall i :: 0 <= i < |inst.tags| ==> NoOpening(inst.tags[i].key) && NoOpening(inst.tags[i].value))
    && (forall i :: 0 <= i < |inst.securityGroupIds| ==> NoOpening(inst.securityGroupIds[i]))
    && (inst.privateIp.Some? ==> NoOpening(inst.privateIp.value))
    && (inst.publicIp.Some? ==> NoOpening(inst.publicIp.value))
    && NoOpening(inst.instanceType)
    && (forall i :: 0 <= i < |inst.placement| ==> NoOpening(inst.placement[i].0) && NoOpening(inst.placement[i].1))
    && (inst.iamProfileArn.Some? ==> NoOpening(inst.iamProfileArn.value))
    && (inst.keyName.Some? ==> NoOpening(inst.keyName.value))
  }

  lemma RecipePlain(inst: Instance, created: string)
    requires RecipeSafe(inst, created)
    ensures PlainValues(Recipe(inst, created))
  {
    var head, pub, mid, iam, key :=
      RecipeHead(inst, created), RecipePublicIp(inst), RecipeMiddle(inst), RecipeIam(inst), RecipeKeyName(inst);
    RecipeHeadPlain(inst, created);
    RecipeIamPlain(inst);
    Json.ObjectJsonNoOpening(inst.placement);
    assert PlainValues(pub) && PlainValues(mid) && PlainValues(key);
    PlainConcat(head, pub);
    PlainConcat(head + pub, mid);
    PlainConcat(head + pub + mid, iam);
    PlainConcat(head + pub + mid + iam, key);
  }

  lemma RecipeHeadPlain(inst: Instance, created: string)
    requires RecipeSafe(inst, created)
    ensures PlainValues(RecipeHead(inst, created))
  {
    var rh := RubyHash(inst.tags);
    var ps := AsPairs(rh);
    forall i | 0 <= i < |ps| ensures NoOpening(ps[i].0) && NoOpening(ps[i].1) {
      var j :| 0 <= j < |inst.tags| && inst.tags[j] == rh[i];
    }
    Json.ObjectJsonNoOpening(ps);
    Json.ArrayJsonNoOpening(inst.securityGroupIds);
    if "Name" in HashOf(inst.tags) {
      HashOfValueFrom(inst.tags, "Name");
    }
  }

  lemma RecipeIamPlain(inst: Instance)
    requires inst.iamProfileArn.Some? ==> NoOpening(inst.iamProfileArn.value)
    ensures PlainValues(RecipeIam(inst))
  {
    if inst.iamProfileArn.Some? {
      ArnNamePlain(inst.iamProfileArn.value);
    }
  }

  /** The profile name is a piece of the ARN, so it has no `${` the ARN lacks. */
  lemma ArnNamePlain(arn: string)
    requires NoOpening(arn)
    ensures ArnName(arn).Some? ==> NoOpening(ArnName(arn).value)
  {
    var t := TrimSlashes(arn);
    if t != [] {
      NoOpeningPrefix(arn, t);
      var seg := AfterLast(t, '/');
      NoOpeningSlice(t, |t| - |seg|, |t|);
      assert t[|t| - |seg|..|t|] == seg;
    }
  }

  lemma NoOpeningPrefix(s: string, t: string)
    requires NoOpening(s) && t <= s
    ensures NoOpening(t)
  {
    NoOpeningSlice(s, 0, |t|);
    assert s[0..|t|] == t;
  }

  lemma PlainConcat(a: seq<Entry>, b: seq<Entry>)
    requires PlainValues(a) && PlainValues(b)
    ensures PlainValues(a + b)
  {
    forall i | 0 <= i < |a + b| && (a + b)[i].value.Some? ensures NoOpening((a + b)[i].value.value) {
      if i >= |a| { assert (a + b)[i] == b[i - |a|]; }
    }
  }

  /** Reading one recipe entry back from the image's tags gives its value (nil as ""). */
  lemma RecipeLookup(inst: Instance, created: string, e: Entry)
    requires RecipeSafe(inst, created) && e in Recipe(inst, created)
    ensures e.key in ImageTagHash(inst, created)
    ensures ImageTagHash(inst, created)[e.key] == e.value.GetOr("")
  {
    RecipePlain(inst, created);
    RecipeKeys(inst, created);
    FormatGetHashRoundTrip(Recipe(inst, created), map[]);
    var i :| 0 <= i < |Recipe(inst, created)| && Recipe(inst, created)[i] == e;
  }

  /** A key `get_ami_tag_hash` writes for this instance. */
  predicate IsRecipeKey(inst: Instance, k: string)
  {
    || k in AlwaysKeys
    || (k == "public_ip_address" && inst.publicIp.Some?)
    || (k == "iam_instance_profile" && inst.iamProfileArn.Some?)
    || (k == "key_name" && inst.keyName.Some?)
  }

  /** `Tag.get_hash(image[:tags])`, the lookup `run_spot` works from. */
  function ImageTagHash(inst: Instance, created: string): map<string, string>
  {
    HashOf(AmiTags(inst, created))
  }

  /**
   * The recipe round trip: `get_hash` of the image's tags, as `run_spot` reads
   * them, gives back the instance's launch settings.
   */
  lemma RecipeRoundTrip(inst: Instance, created: string)
    requires RecipeSafe(inst, created)
    ensures var h := ImageTagHash(inst, created);
      && "created" in h && h["created"] == created
      && "tags" in h && Json.ParseObject(h["tags"]) == Some(AsPairs(RubyHash(inst.tags)))
      && "Name" in h && h["Name"] == NameTag(inst.tags).GetOr("")
      && "security_groups" in h && Json.ParseArray(h["security_groups"]) == Some(inst.securityGroupIds)
      && "private_ip_address" in h && h["private_ip_address"] == inst.privateIp.GetOr("")
      && ("public_ip_address" in h <==> inst.publicIp.Some?)
      && (inst.publicIp.Some? ==> h["public_ip_address"] == inst.publicIp.value)
      && "instance_type" in h && h["instance_type"] == inst.instanceType
      && "placement" in h && Json.ParseObject(h["placement"]) == Some(inst.placement)
      && ("iam_instance_profile" in h <==> inst.iamProfileArn.Some?)
      && (inst.iamProfileArn.Some? ==> h["iam_instance_profile"] == ArnName(inst.iamProfileArn.value).GetOr(""))
      && ("key_name" in h <==> inst.keyName.Some?)
      && (inst.keyName.Some? ==> h["key_name"] == inst.keyName.value)
  {
    RecipeStrings(inst, created);
    RecipeOptionals(inst, created);
    RecipeJson(inst, created);
  }

  lemma RecipeStrings(inst: Instance, created: string)
    requires RecipeSafe(inst, created)
    ensures var h := ImageTagHash(inst, created);
      && "created" in h && h["created"] == created
      && "Name" in h && h["Name"] == NameTag(inst.tags).GetOr("")
      && "private_ip_address" in h && h["private_ip_address"] == inst.privateIp.GetOr("")
      && "instance_type" in h && h["instance_type"] == inst.instanceType
  {
    RecipeValues(inst, created);
    RecipeLookup(inst, created, Entry("created", Some(created)));
    RecipeLookup(inst, created, Entry("Name", NameTag(inst.tags)));
    RecipeLookup(inst, created, Entry("private_ip_address", inst.privateIp));
    RecipeLookup(inst, created, Entry("instance_type", Some(inst.instanceType)));
  }

  lemma RecipeOptionals(inst: Instance, created: string)
    requires RecipeSafe(inst, created)
    ensures var h := ImageTagHash(inst, created);
      && ("public_ip_address" in h <==> inst.publicIp.Some?)
      && (inst.publicIp.Some? ==> h["public_ip_address"] == inst.publicIp.value)
      && ("iam_instance_profile" in h <==> inst.iamProfileArn.Some?)
      && (inst.iamProfileArn.Some? ==> h["iam_instance_profile"] == ArnName(inst.iamProfileArn.value).GetOr(""))
      && ("key_name" in h <==> inst.keyName.Some?)
      && (inst.keyName.Some? ==> h["key_name"] == inst.keyName.value)
  {
    TagHashKeys(inst, created);
    RecipePublicIpLookup(inst, created);
    RecipeIamLookup(inst, created);
    RecipeKeyNameLookup(inst, created);
  }

  lemma RecipePublicIpLookup(inst: Instance, created: string)
    requires RecipeSafe(inst, created)
    ensures var h := ImageTagHash(inst, created);
      && ("public_ip_address" in h <==> inst.publicIp.Some?)
      && (inst.publicIp.Some? ==> h["public_ip_address"] == inst.publicIp.value)
  {
    TagHashKeys(inst, created);
    RecipePublicIpKey(inst, created);
    if inst.publicIp.Some? {
      RecipeValues(inst, created);
      RecipeLookup(inst, created, Entry("public_ip_address", inst.publicIp));
    }
  }

  lemma RecipeIamLookup(inst: Instance, created: string)
    requires RecipeSafe(inst, created)
    ensures var h := ImageTagHash(inst, created);
      && ("iam_instance_profile" in h <==> inst.iamProfileArn.Some?)
      && (inst.iamProfileArn.Some? ==> h["iam_instance_profile"] == ArnName(inst.iamProfileArn.value).GetOr(""))
  {
    TagHashKeys(inst, created);
    RecipeIamKey(inst, created);
    if inst.iamProfileArn.Some? {
      RecipeValues(inst, created);
      RecipeLookup(inst, created, Entry("iam_instance_profile", ArnName(inst.iamProfileArn.value)));
    }
  }

  lemma RecipeKeyNameLookup(inst: Instance, created: string)
    requires RecipeSafe(inst, created)
    ensures var h := ImageTagHash(inst, created);
      && ("key_name" in h <==> inst.keyName.Some?)
      && (inst.keyName.Some? ==> h["key_name"] == inst.keyName.value)
  {
    TagHashKeys(inst, created);
    RecipeKeyNameKey(inst, created);
    if inst.keyName.Some? {
      RecipeValues(inst, created);
      RecipeLookup(inst, created, Entry("key_name", inst.keyName));
    }
  }

  lemma RecipeJson(inst: Instance, created: string)
    requires RecipeSafe(inst, created)
    ensures var h := ImageTagHash(inst, created);
      && "tags" in h && Json.ParseObject(h["tags"]) == Some(AsPairs(RubyHash(inst.tags)))
      && "security_groups" in h && Json.ParseArray(h["security_groups"]) == Some(inst.securityGroupIds)
      && "placement" in h && Json.ParseObject(h["placement"]) == Some(inst.placement)
  {
    RecipeValues(inst, created);
    RecipeLookup(inst, created, Entry("tags", Some(Json.ObjectJson(AsPairs(RubyHash(inst.tags))))));
    RecipeLookup(inst, created, Entry("security_groups", Some(Json.ArrayJson(inst.securityGroupIds))));
    RecipeLookup(inst, created, Entry("placement", Some(Json.ObjectJson(inst.placement))));
    Json.ObjectRoundTrip(AsPairs(RubyHash(inst.tags)));
    Json.ObjectRoundTrip(inst.placement);
    Json.ArrayRoundTrip(inst.securityGroupIds);
  }

  /** The keys of the image's tag hash are the recipe's keys. */
  lemma RecipeDomain(inst: Instance, created: string)
    requires RecipeSafe(inst, created)
    ensures forall k :: k in ImageTagHash(inst, created) <==> IsRecipeKey(inst, k)
  {
    TagHashKeys(inst, created);
    RecipeKeySet(inst, created);
  }

  lemma TagHashKeys(inst: Instance, created: string)
    requires RecipeSafe(inst, created)
    ensures forall k :: k in ImageTagHash(inst, created) <==> HasKey(Recipe(inst, created), k)
  {
    RecipePlain(inst, created);
    RecipeKeys(inst, created);
    FormatGetHashRoundTrip(Recipe(inst, created), map[]);
  }

  lemma RecipeKeySet(inst: Instance, created: string)
    ensures forall k :: HasKey(Recipe(inst, created), k) <==> IsRecipeKey(inst, k)
  {
    RecipeKeys(inst, created);
    RecipeKeysWithin(inst, created);
  }

  // ---------------------------------------------------------------------
  // Ordering images by their `created` tag
  // ---------------------------------------------------------------------

  /** The image's `created` tag, "" when it has none (the sort key of latest_image_with_name). */
  function Created(im: Image): string
  {
    var tags := HashOf(im.tags);
    if "created" in tags then tags["created"] else ""
  }

  /**
   * `sort_by` on the `created` tag. Ruby's sort is not stable; this one is,
   * and the contract states only what any sort guarantees: sorted, and the
   * same images.
   */
  function SortByCreated(images: seq<Image>): (r: seq<Image>)
    ensures SortedBy(r, Created)
    ensures multiset(r) == multiset(images) && |r| == |images|
  {
    SortBy(images, Created)
  }

  // ---------------------------------------------------------------------
  // latest_image_with_name
  // ---------------------------------------------------------------------

  /**
   * `latest_image_with_name` over the images the name search returned: nil
   * (the `{}` the code returns) when there are none, else the last image of
   * the sort, one whose `created` tag is the largest.
   */
  function LatestImage(images: seq<Image>): (r: Option<Image>)
    ensures r.None? <==> images == []
    ensures r.Some? ==> r.value in images
    ensures r.Some? ==> forall i :: 0 <= i < |images| ==> StrLe(Created(images[i]), Created(r.value))
  {
    var sorted := SortByCreated(images);
    if sorted == [] then None
    else
      var last := sorted[|sorted| - 1];
      assert last in multiset(images);
      forall i | 0 <= i < |images| ensures StrLe(Created(images[i]), Created(last)) {
        assert images[i] in multiset(sorted);
        var j :| 0 <= j < |sorted| && sorted[j] == images[i];
        if j == |sorted| - 1 { StrLeRefl(Created(last)); }
      }
      Some(last)
  }

  // ---------------------------------------------------------------------
  // get_old_images
  // ---------------------------------------------------------------------

  /** An image `get_old_images` considers: it has both a Name and a created tag. */
  predicate Eligible(im: Image)
  {
    "Name" in HashOf(im.tags) && "created" in HashOf(im.tags)
  }

  function NameOf(im: Image): string
    requires Eligible(im)
  {
    HashOf(im.tags)["Name"]
  }

  /** The Name of an eligible image equals `n`. */
  predicate HasName(im: Image, n: string)
  {
    Eligible(im) && NameOf(im) == n
  }

  /** The keys of the `map` hash of arrays: eligible Names in order of first appearance. */
  function GroupNames(images: seq<Image>): seq<string>
  {
    if images == [] then []
    else
      var n := |images| - 1;
      var prev := GroupNames(images[..n]);
      if Eligible(images[n]) && NameOf(images[n]) !in prev then prev + [NameOf(images[n])] else prev
  }

  /** The group Names are the Names of eligible images, each once. */
  lemma {:induction false} GroupNamesSpec(images: seq<Image>)
    ensures forall n :: n in GroupNames(images) <==> exists i :: 0 <= i < |images| && HasName(images[i], n)
    ensures forall i, j :: 0 <= i < j < |GroupNames(images)| ==> GroupNames(images)[i] != GroupNames(images)[j]
  {
    if images != [] {
      var n := |images| - 1;
      GroupNamesSpec(images[..n]);
      assert forall i :: 0 <= i < n ==> images[..n][i] == images[i];
    }
  }

  /** The array `map[name]`: the eligible images with that Name, in search order. */
  function Group(images: seq<Image>, name: string): seq<Image>
  {
    if images == [] then []
    else
      var n := |images| - 1;
      Group(images[..n], name) + (if HasName(images[n], name) then [images[n]] else [])
  }

  /** A group holds images of the search with that Name, and is empty only when there are none. */
  lemma GroupSpec(images: seq<Image>, name: string)
    ensures forall x :: x in Group(images, name) ==> x in images && HasName(x, name)
    ensures multiset(Group(images, name)) <= multiset(images)
    ensures Group(images, name) == [] <==> forall i :: 0 <= i < |images| ==> !HasName(images[i], name)
  {
    GroupSubset(images, name);
    GroupEmpty(images, name);
    forall x | x in Group(images, name) ensures x in images {
      assert x in multiset(Group(images, name));
    }
  }

  lemma {:induction false} GroupSubset(images: seq<Image>, name: string)
    ensures forall x :: x in Group(images, name) ==> HasName(x, name)
    ensures multiset(Group(images, name)) <= multiset(images)
  {
    if images != [] {
      var n := |images| - 1;
      GroupSubset(images[..n], name);
      var prev := Group(images[..n], name);
      var last := if HasName(images[n], name) then [images[n]] else [];
      assert Group(images, name) == prev + last;
      assert multiset(prev + last) == multiset(prev) + multiset(last);
      assert images == images[..n] + [images[n]];
      assert multiset(images) == multiset(images[..n]) + multiset{images[n]};
      assert multiset(last) <= multiset{images[n]};
    }
  }

  lemma {:induction false} GroupEmpty(images: seq<Image>, name: string)
    ensures Group(images, name) == [] <==> forall i :: 0 <= i < |images| ==> !HasName(images[i], name)
  {
    if images != [] {
      var n := |images| - 1;
      GroupEmpty(images[..n], name);
      assert forall i :: 0 <= i < n ==> images[..n][i] == images[i];
    }
  }

  /** `sorted_images.last(num)`. */
  function LastN(sorted: seq<Image>, num: nat): (r: seq<Image>)
    ensures |r| == if num < |sorted| then num else |sorted|
    ensures r == sorted[|sorted| - |r|..]
  {
    if num < |sorted| then sorted[|sorted| - num..] else sorted
  }

  /** What one Name group contributes: the sorted group minus its newest `num`. */
  function OldOfGroup(g: seq<Image>, num: nat): seq<Image>
  {
    var sorted := SortByCreated(g);
    Minus(sorted, LastN(sorted, num))
  }

  /** The old images of the groups `names`, group after group. */
  function OldOfNames(images: seq<Image>, names: seq<string>, num: nat): seq<Image>
  {
    if names == [] then []
    else
      var n := |names| - 1;
      OldOfNames(images, names[..n], num) + OldOfGroup(Group(images, names[n]), num)
  }

  /** What `get_old_images` returns for the images the name search found. */
  function OldImages(images: seq<Image>, num: nat): seq<Image>
  {
    OldOfNames(images, GroupNames(images), num)
  }

  /** `groups` and `names` are the `map` hash of arrays after the first `i` search results. */
  ghost predicate GroupedUpTo(images: seq<Image>, i: nat, groups: map<string, seq<Image>>, names: seq<string>)
    requires i <= |images|
  {
    && names == GroupNames(images[..i])
    && groups.Keys == NameSet(names)
    && (forall n :: n in groups ==> groups[n] == Group(images[..i], n))
  }

  function NameSet(names: seq<string>): set<string>
  {
    set n | n in names
  }

  lemma NameSetAppend(names: seq<string>, name: string)
    ensures NameSet(names + [name]) == NameSet(names) + {name}
  {
  }

  /** An eligible image whose Name has an array is appended to it. */
  lemma GroupAppendSeen(images: seq<Image>, i: nat, groups: map<string, seq<Image>>, names: seq<string>, name: string)
    requires i < |images| && GroupedUpTo(images, i, groups, names) && HasName(images[i], name)
    requires name in groups
    ensures GroupedUpTo(images, i + 1, groups[name := groups[name] + [images[i]]], names)
  {
    var groups' := groups[name := groups[name] + [images[i]]];
    assert name in NameSet(names);
    GroupNamesSeen(images, i, name);
    GroupOfName(images, i, name);
    assert groups'.Keys == groups.Keys;
    forall n | n in groups' ensures groups'[n] == Group(images[..i + 1], n) {
      if n != name { GroupOfOtherName(images, i, name, n); }
    }
  }

  /** An eligible image with a new Name starts the array of that Name. */
  lemma GroupAppendNew(images: seq<Image>, i: nat, groups: map<string, seq<Image>>, names: seq<string>, name: string)
    requires i < |images| && GroupedUpTo(images, i, groups, names) && HasName(images[i], name)
    requires name !in groups
    ensures GroupedUpTo(images, i + 1, groups[name := [images[i]]], names + [name])
  {
    var groups' := groups[name := [images[i]]];
    assert name !in NameSet(names);
    GroupNamesNew(images, i, name);
    GroupOfUnseen(images, i, name);
    GroupOfName(images, i, name);
    NameSetAppend(names, name);
    assert groups'.Keys == groups.Keys + {name};
    forall n | n in groups' ensures groups'[n] == Group(images[..i + 1], n) {
      if n != name { GroupOfOtherName(images, i, name, n); }
    }
  }

  lemma GroupOfName(images: seq<Image>, i: nat, name: string)
    requires i < |images| && HasName(images[i], name)
    ensures Group(images[..i + 1], name) == Group(images[..i], name) + [images[i]]
  {
    assert images[..i + 1][..i] == images[..i];
  }

  lemma GroupOfOtherName(images: seq<Image>, i: nat, name: string, n: string)
    requires i < |images| && HasName(images[i], name) && n != name
    ensures Group(images[..i + 1], n) == Group(images[..i], n)
  {
    assert images[..i + 1][..i] == images[..i];
  }

  lemma GroupNamesNew(images: seq<Image>, i: nat, name: string)
    requires i < |images| && HasName(images[i], name) && name !in GroupNames(images[..i])
    ensures GroupNames(images[..i + 1]) == GroupNames(images[..i]) + [name]
  {
    assert images[..i + 1][..i] == images[..i];
  }

  lemma GroupNamesSeen(images: seq<Image>, i: nat, name: string)
    requires i < |images| && HasName(images[i], name) && name in GroupNames(images[..i])
    ensures GroupNames(images[..i + 1]) == GroupNames(images[..i])
  {
    assert images[..i + 1][..i] == images[..i];
  }

  /** A Name not yet seen has no images so far. */
  lemma GroupOfUnseen(images: seq<Image>, i: nat, name: string)
    requires i <= |images| && name !in GroupNames(images[..i])
    ensures Group(images[..i], name) == []
  {
    GroupNamesSpec(images[..i]);
    GroupSpec(images[..i], name);
  }

  /** An image without a Name or a created tag is skipped. */
  lemma GroupSkip(images: seq<Image>, i: nat, groups: map<string, seq<Image>>, names: seq<string>)
    requires i < |images| && GroupedUpTo(images, i, groups, names) && !Eligible(images[i])
    ensures GroupedUpTo(images, i + 1, groups, names)
  {
    assert images[..i + 1][..i] == images[..i];
  }

  /** After the last search result, the hash of arrays holds every group. */
  lemma GroupedAll(images: seq<Image>, groups: map<string, seq<Image>>, names: seq<string>)
    requires GroupedUpTo(images, |images|, groups, names)
    ensures names == GroupNames(images)
    ensures forall n :: n in names ==> n in groups && groups[n] == Group(images, n)
  {
    assert images[..|images|] == images;
  }

  lemma OldOfNamesStep(images: seq<Image>, names: seq<string>, j: nat, num: nat)
    requires j < |names|
    ensures OldOfNames(images, names[..j + 1], num) ==
            OldOfNames(images, names[..j], num) + OldOfGroup(Group(images, names[j]), num)
  {
    assert names[..j + 1][..j] == names[..j];
  }

  /**
   * The `result.each` block of `get_old_images`: the `map` hash of arrays,
   * with its keys in insertion order.
   */
  method GroupByName(images: seq<Image>) returns (groups: map<string, seq<Image>>, names: seq<string>)
    ensures names == GroupNames(images)
    ensures groups.Keys == NameSet(names)
    ensures forall n :: n in names ==> groups[n] == Group(images, n)
  {
    groups := map[];
    names := [];
    for i := 0 to |images|
      invariant GroupedUpTo(images, i, groups, names)
    {
      var im := images[i];
      var tags := GetHash(im.tags);
      if "Name" in tags && "created" in tags {
        var name := tags["Name"];
        if name in groups {
          GroupAppendSeen(images, i, groups, names, name);
        } else {
          GroupAppendNew(images, i, groups, names, name);
          names := names + [name];
        }
        var group := if name in groups then groups[name] else [];
        groups := groups[name := group + [im]];
      } else {
        GroupSkip(images, i, groups, names);
      }
    }
    GroupedAll(images, groups, names);
  }

  /** `get_old_images(name, num)`, over the search result `images`. */
  method GetOldImages(images: seq<Image>, num: nat) returns (oldImages: seq<Image>)
    ensures oldImages == OldImages(images, num)
  {
    if images == [] {
      return [];
    }
    var groups, names := GroupByName(images);
    oldImages := [];
    for j := 0 to |names|
      invariant oldImages == OldOfNames(images, names[..j], num)
    {
      OldOfNamesStep(images, names, j, num);
      var sorted := SortByCreated(groups[names[j]]);
      var newly := LastN(sorted, num);
      oldImages := oldImages + Minus(sorted, newly);
    }
    assert names[..|names|] == names;
  }

  // Properties of get_old_images

  /** The images of `xs` with Name `n`, in order. */
  function WithName(xs: seq<Image>, n: string): seq<Image>
  {
    if xs == [] then []
    else
      var k := |xs| - 1;
      WithName(xs[..k], n) + (if HasName(xs[k], n) then [xs[k]] else [])
  }

  lemma {:induction false} WithNameConcat(a: seq<Image>, b: seq<Image>, n: string)
    ensures WithName(a + b, n) == WithName(a, n) + WithName(b, n)
    decreases |b|
  {
    if b == [] {
      assert a + b == a;
    } else {
      var k := |b| - 1;
      assert (a + b)[..|a + b| - 1] == a + b[..k];
      WithNameConcat(a, b[..k], n);
    }
  }

  lemma {:induction false} WithNameAll(xs: seq<Image>, m: string, n: string)
    requires forall x :: x in xs ==> HasName(x, m)
    ensures WithName(xs, n) == if n == m then xs else []
  {
    if xs != [] {
      var k := |xs| - 1;
      assert xs == xs[..k] + [xs[k]];
      assert HasName(xs[k], m) by { assert xs[k] in xs; }
      assert forall x :: x in xs[..k] ==> x in xs;
      WithNameAll(xs[..k], m, n);
    }
  }

  /** Everything a group contributes comes from that group. */
  lemma OldOfGroupFrom(g: seq<Image>, num: nat)
    ensures forall x :: x in OldOfGroup(g, num) ==> x in g
  {
    var sorted := SortByCreated(g);
    MinusSpec(sorted, LastN(sorted, num));
    forall x | x in OldOfGroup(g, num) ensures x in g {
      assert x in multiset(sorted);
    }
  }

  /**
   * Every image a group gives up is no newer than every image it keeps (the
   * newest `num` by `created`).
   */
  lemma OldOfGroupOlder(g: seq<Image>, num: nat)
    ensures var kept := LastN(SortByCreated(g), num);
      forall x, y :: x in OldOfGroup(g, num) && y in kept ==> StrLe(Created(x), Created(y))
  {
    var sorted := SortByCreated(g);
    var kept := LastN(sorted, num);
    var start := |sorted| - |kept|;
    assert kept == sorted[start..];
    MinusSuffixBefore(sorted, start, Created);
    assert OldOfGroup(g, num) == Minus(sorted, sorted[start..]);
  }

  /** With no image twice, a group of `s` images gives up exactly max(0, s - num). */
  lemma OldOfGroupCount(g: seq<Image>, num: nat)
    requires Distinct(g)
    ensures |OldOfGroup(g, num)| == if |g| > num then |g| - num else 0
  {
    var sorted := SortByCreated(g);
    var kept := LastN(sorted, num);
    var p := sorted[..|sorted| - |kept|];
    assert sorted == p + kept;
    assert multiset(sorted) == multiset(p) + multiset(kept);
    forall x | x in p ensures x !in kept {
      assert multiset(sorted)[x] <= 1;
    }
    MinusDisjoint(p, kept);
    MinusConcat(p, kept, kept);
    MinusCovered(kept, kept);
  }

  /** What group `m` gives up carries Name `m` and no other. */
  lemma WithNameOfGroup(images: seq<Image>, m: string, num: nat, n: string)
    ensures WithName(OldOfGroup(Group(images, m), num), n) ==
      if n == m then OldOfGroup(Group(images, m), num) else []
  {
    OldOfGroupFrom(Group(images, m), num);
    GroupSpec(images, m);
    WithNameAll(OldOfGroup(Group(images, m), num), m, n);
  }

  /** The old images of the groups `names` that carry Name `n` are what group `n` gives up. */
  lemma {:induction false} OldOfNamesByName(images: seq<Image>, names: seq<string>, num: nat, n: string)
    requires forall i, j :: 0 <= i < j < |names| ==> names[i] != names[j]
    ensures WithName(OldOfNames(images, names, num), n) ==
      if n in names then OldOfGroup(Group(images, n), num) else []
  {
    if names != [] {
      var k := |names| - 1;
      var m := names[k];
      var pre := OldOfNames(images, names[..k], num);
      var part := OldOfGroup(Group(images, m), num);
      assert OldOfNames(images, names, num) == pre + part;
      UniqueSnoc(names);
      OldOfNamesByName(images, names[..k], num, n);
      WithNameConcat(pre, part, n);
      WithNameOfGroup(images, m, num, n);
      if n == m {
        assert WithName(pre + part, n) == [] + part;
      } else {
        assert WithName(pre + part, n) == WithName(pre, n) + [];
      }
    }
  }

  /** The images `get_old_images` returns with Name `n` are exactly what group `n` gives up. */
  lemma OldImagesByName(images: seq<Image>, num: nat, n: string)
    ensures WithName(OldImages(images, num), n) == OldOfGroup(Group(images, n), num)
  {
    GroupNamesSpec(images);
    OldOfNamesByName(images, GroupNames(images), num, n);
    if n !in GroupNames(images) {
      GroupSpec(images, n);
    }
  }

  /** For each Name group of size s, exactly max(0, s - num) of its images are returned. */
  lemma OldImagesCount(images: seq<Image>, num: nat, n: string)
    requires Distinct(images)
    ensures var s := |Group(images, n)|;
      |WithName(OldImages(images, num), n)| == if s > num then s - num else 0
  {
    OldImagesByName(images, num, n);
    GroupSpec(images, n);
    var g := Group(images, n);
    assert Distinct(g) by {
      forall x ensures multiset(g)[x] <= 1 {
        assert multiset(g)[x] <= multiset(images)[x];
      }
    }
    OldOfGroupCount(g, num);
  }

  /** Only images of the search with both a Name and a created tag are ever returned. */
  lemma {:induction false} OldImagesEligible(images: seq<Image>, num: nat)
    ensures forall x :: x in OldImages(images, num) ==> x in images && Eligible(x)
  {
    OldOfNamesEligible(images, GroupNames(images), num);
  }

  lemma {:induction false} OldOfNamesEligible(images: seq<Image>, names: seq<string>, num: nat)
    ensures forall x :: x in OldOfNames(images, names, num) ==> x in images && Eligible(x)
  {
    if names != [] {
      var k := |names| - 1;
      OldOfNamesEligible(images, names[..k], num);
      OldOfGroupFrom(Group(images, names[k]), num);
      GroupSpec(images, names[k]);
    }
  }

  // deregister_snapshot_no_related

  /** The snapshot ids of the EBS mappings of an image, in order; ephemeral mappings have none. */
  function EbsSnapshotIds(devices: seq<ImageBlockDevice>): seq<string>
  {
    if devices == [] then []
    else
      var k := |devices| - 1;
      EbsSnapshotIds(devices[..k]) +
        (if devices[k].ebs.Some? then [devices[k].ebs.value.snapshotId] else [])
  }

  /** Snapshot `id` backs some EBS mapping of `devices`. */
  predicate BacksDevice(devices: seq<ImageBlockDevice>, id: string)
  {
    exists i :: 0 <= i < |devices| && devices[i].ebs == Some(ImageEbs(id))
  }

  lemma {:induction false} EbsSnapshotIdsSpec(devices: seq<ImageBlockDevice>)
    ensures forall id :: id in EbsSnapshotIds(devices) <==> BacksDevice(devices, id)
    ensures |EbsSnapshotIds(devices)| <= |devices|
  {
    if devices != [] {
      var k := |devices| - 1;
      EbsSnapshotIdsSpec(devices[..k]);
      assert forall i :: 0 <= i < k ==> devices[..k][i] == devices[i];
      forall id | BacksDevice(devices, id) ensures id in EbsSnapshotIds(devices) {
        var i :| 0 <= i < |devices| && devices[i].ebs == Some(ImageEbs(id));
        if i < k {
          assert BacksDevice(devices[..k], id);
        }
      }
    }
  }

  /** Every snapshot id some image of the search still references, image after image. */
  function ReferencedSnapshots(images: seq<Image>): seq<string>
  {
    if images == [] then []
    else
      var k := |images| - 1;
      ReferencedSnapshots(images[..k]) + EbsSnapshotIds(images[k].blockDevices)
  }

  /** Snapshot `id` backs a mapping of some image of `images`. */
  predicate Referenced(images: seq<Image>, id: string)
  {
    exists i :: 0 <= i < |images| && BacksDevice(images[i].blockDevices, id)
  }

  lemma {:induction false} ReferencedSnapshotsSpec(images: seq<Image>)
    ensures forall id :: id in ReferencedSnapshots(images) <==> Referenced(images, id)
  {
    if images != [] {
      var k := |images| - 1;
      ReferencedSnapshotsSpec(images[..k]);
      EbsSnapshotIdsSpec(images[k].blockDevices);
      assert forall i :: 0 <= i < k ==> images[..k][i] == images[i];
      forall id | Referenced(images, id) ensures id in ReferencedSnapshots(images) {
        var i :| 0 <= i < |images| && BacksDevice(images[i].blockDevices, id);
        if i < k {
          assert Referenced(images[..k], id);
        }
      }
    }
  }

  /**
   * The snapshots `deregister_snapshot_no_related` deletes, in deletion order:
   * the owner's snapshots (`owned`, as describe_snapshots lists them) that no
   * image of the search references.
   */
  method UnreferencedSnapshots(images: seq<Image>, owned: seq<string>) returns (doomed: seq<string>)
    ensures doomed == Minus(owned, ReferencedSnapshots(images))
    ensures forall id :: id in doomed <==> id in owned && !Referenced(images, id)
  {
    var enabled: seq<string> := [];
    for i := 0 to |images|
      invariant enabled == ReferencedSnapshots(images[..i])
    {
      assert images[..i + 1][..i] == images[..i];
      enabled := enabled + EbsSnapshotIds(images[i].blockDevices);
    }
    assert images[..|images|] == images;
    doomed := Minus(owned, enabled);
    MinusSpec(owned, enabled);
    ReferencedSnapshotsSpec(images);
  }

  /** A snapshot some image references is never deleted, whatever else the owner has. */
  lemma ReferencedKept(images: seq<Image>, owned: seq<string>, id: string)
    requires Referenced(images, id)
    ensures id !in Minus(owned, ReferencedSnapshots(images))
  {
    MinusSpec(owned, ReferencedSnapshots(images));
    ReferencedSnapshotsSpec(images);
  }
}
