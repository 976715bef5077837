# ec2ex decision logic in Dafny

ec2ex is a Ruby command-line tool around the AWS EC2 API. It relaunches servers from tagged
AMIs, copies and respawns instances (on demand or as spot requests), prunes old images and
their snapshots, and manages network-ACL deny rules. Most of it is API plumbing. This project
models the deterministic decisions taken between those calls and proves what they guarantee.
The API's answers come in as parameters, and the requests the tool would send go out as values.

Modules, one per Ruby file of the core, plus two helpers:

- `Tag` (lib/ec2ex/tag.rb) covers three things:
  - `Tag.format`, with `${name}` placeholder substitution;
  - `Tag.get_hash`, where the last duplicate wins;
  - the relaunch recipe written by `Tag.get_ami_tag_hash`.
- `Ami` (lib/ec2ex/ami.rb) covers the image name, `latest_image_with_name`, the retention
  policy of `get_old_images`, and the unreferenced snapshots of `deregister_snapshot_no_related`.
- `Util` (lib/ec2ex/util.rb) covers `group_count`.
- `Creator` (lib/ec2ex/instance/creator.rb) covers:
  - the thread cap and the `each_slice` partition, including which group waits for status ok;
  - the positional tags;
  - the private-address policies;
  - the launch requests of `run_spot`, `spot` and `copy`, built key by key, with `params` merged over them.
- `Instance` (lib/ec2ex/instance.rb) covers:
  - the describe filter and the first-result exit;
  - the spot-request polling loop over the observed answers;
  - the delete-on-termination mappings;
  - the reserved-instance report.
- `Network` (lib/ec2ex/network.rb) covers subnet lookup by CIDR containment over 32-bit
  addresses, and the nil guards of `associate_address` and `ping?`.
- `Cli` (lib/ec2ex/cli.rb) covers deny-rule numbering and deletion for network ACLs, and the
  calls made by `deregister_image`.
- `Common` holds Option/Result, decimal strings, string order, `Array#-`, and `sort_by` as an
  insertion sort. `Resources` holds the EC2 records. `Json` holds the `to_json` / `JSON.parse`
  of string arrays and string hashes that the AMI recipe relies on.

Code that updates local accumulators step by step is written as methods with loops. Each such
method is proved equal to a specification function, and the properties are lemmas about that
function. This covers `Tag.format`, `get_hash`, `get_ami_tag_hash`, the grouping loop of
`get_old_images`, the snapshot loop, the filter loop, the polling loop, the reserved loops,
the fan-out over groups and the ACL deletions. Code that is a single expression in Ruby is
written as functions and lemmas: `group_count`, `get_subnet`, `sort_by`/`last`, the partition,
and `select`/`sort_by` over ACL entries.

## Model

| member | source | states |
|---|---|---|
| Tag.Formatted | lib/ec2ex/tag.rb:4-11 | one `{key, value}` per template entry, in order, with the entry's key; the value is the entry's value with placeholders resolved, and a nil value gives `""` |
| Tag.Format | lib/ec2ex/tag.rb:4-11 | the loop that appends to `tags` produces exactly `Formatted` |
| Tag.RenderPlaceholder | lib/ec2ex/tag.rb:7 | `${name}` is replaced by the preset's value for `name`; a name missing from the preset renders as nothing, never as the literal placeholder |
| Tag.RenderPlainPrefix | lib/ec2ex/tag.rb:7 | text without `${`, including a `$` not followed by `{`, is copied unchanged and rendering goes on after it |
| Tag.RenderDollarExample | lib/ec2ex/tag.rb:7 | `"$5 ${x}"` with `x` set to `y` renders as `"$5 y"`: the lone `$` stays, the placeholder is filled |
| Tag.RenderPlain | lib/ec2ex/tag.rb:7 | a value with no `${` comes out unchanged |
| Tag.RenderLiteralPrefix | lib/ec2ex/tag.rb:7 | text without `$` is copied through verbatim, whatever follows it |
| Tag.RenderExamples | lib/ec2ex/tag.rb:4-7 | a found name, a name missing from the default `{}` preset, and a nil value render as `prod`, `""` and `""` |
| Tag.CloseBrace | lib/ec2ex/tag.rb:7 | finds the first `}` at or after a position (the `[^}]+` of the pattern), or reports that there is none |
| Tag.HashOfDomain | lib/ec2ex/tag.rb:13-19 | `get_hash` has exactly the keys that occur in the list |
| Tag.HashOfLastWins | lib/ec2ex/tag.rb:15-17 | each key maps to the value of its last occurrence |
| Tag.HashOfValueFrom | lib/ec2ex/tag.rb:15-17 | every value in the hash comes from some pair with that key |
| Tag.GetHash | lib/ec2ex/tag.rb:13-19 | the loop that fills `result` produces exactly `HashOf` |
| Tag.FormatGetHashRoundTrip | lib/ec2ex/tag.rb:4-19 | for distinct keys and placeholder-free values, `get_hash(format(m))` has exactly m's keys, each mapped to m's value (nil as `""`) |
| Tag.FirstKeysSpec | lib/ec2ex/tag.rb:14-17 | a Ruby hash's key order lists every key of the list exactly once |
| Tag.RubyHash | lib/ec2ex/tag.rb:13-19 | the hash as ordered pairs has distinct keys, the same lookups as `get_hash`, and only pairs from the list |
| Tag.RubyHashOfDistinct | lib/ec2ex/tag.rb:14-17 | a list with distinct keys already is its own hash |
| Tag.FormatPlain | lib/ec2ex/tag.rb:4-11 | formatting placeholder-free strings gives the same pairs back |
| Tag.HashFormatRoundTrip | lib/ec2ex/tag.rb:4-19 | `format(get_hash(tags))` gives back the hash's pairs in its order, and `get_hash` of that equals `get_hash(tags)` |
| Tag.TrimSlashes | lib/ec2ex/tag.rb:35 | strips the trailing `/` characters, which `split` drops |
| Tag.ArnName | lib/ec2ex/tag.rb:35 | `arn.split('/').last` is the last non-empty segment; it is nil exactly when the ARN is only slashes, and has no `/` |
| Tag.RecipeKeys | lib/ec2ex/tag.rb:21-41 | the recipe always has its seven fixed keys; it has `public_ip_address`, `iam_instance_profile` and `key_name` exactly when the instance has them; no key occurs twice |
| Tag.RecipeAlwaysKeys | lib/ec2ex/tag.rb:22-33 | `created`, `tags`, `Name`, `security_groups`, `private_ip_address`, `instance_type` and `placement` are always present |
| Tag.RecipePublicIpKey | lib/ec2ex/tag.rb:29-31 | `public_ip_address` is present exactly when the instance has a public address |
| Tag.RecipeIamKey | lib/ec2ex/tag.rb:34-36 | `iam_instance_profile` is present exactly when the instance has a profile |
| Tag.RecipeKeyNameKey | lib/ec2ex/tag.rb:37-39 | `key_name` is present exactly when the instance has a key pair |
| Tag.RecipeKeysWithin | lib/ec2ex/tag.rb:21-41 | the recipe has no key besides the ten it may write |
| Tag.RecipeValues | lib/ec2ex/tag.rb:21-41 | what each key holds: the timestamp, the tags as JSON, the Name tag, the group ids as JSON, the private address, the public address, the type, the placement as JSON, the profile name after the last `/`, and the key pair |
| Tag.AmiTagHash | lib/ec2ex/tag.rb:21-41 | the key-by-key construction equals the recipe |
| Json.ArrayRoundTrip | lib/ec2ex/instance/creator.rb:45 | `JSON.parse(xs.to_json) == xs` for every array of strings |
| Json.ObjectRoundTrip | lib/ec2ex/instance/creator.rb:71 | `JSON.parse(h.to_json)` gives back the members of a string hash, in order |
| Json.ArrayJsonNoOpening | lib/ec2ex/tag.rb:27 | group ids free of `${` are written as JSON free of `${`, so `format` leaves the JSON alone |
| Json.ObjectJsonNoOpening | lib/ec2ex/tag.rb:24 | a string hash free of `${` is written as JSON free of `${`; the same holds for the placement hash written at line 33 |
| Ami.ImageName | lib/ec2ex/ami.rb:8-11 | fails exactly when the instance has no Name tag (nil has no `+`) |
| Ami.ImageNameParts | lib/ec2ex/ami.rb:11 | the image name is the Name tag, then `.`, then the 14-digit timestamp, which is what follows its last dot |
| Ami.RecipePlain | lib/ec2ex/ami.rb:24 | when the instance's strings hold no `${`, no recipe value does either |
| Ami.RecipeLookup | lib/ec2ex/ami.rb:24 | reading one recipe entry back from the image's tags with `get_hash` gives its value (nil as `""`) |
| Ami.RecipeRoundTrip | lib/ec2ex/ami.rb:24 | `get_hash` of the image's tags, as `run_spot` reads them, gives back the instance's timestamp, tags, Name, groups, addresses, type, placement, profile name and key pair |
| Ami.RecipeDomain | lib/ec2ex/ami.rb:24 | the keys of the image's tag hash are exactly the recipe keys for that instance |
| Ami.SortByCreated | lib/ec2ex/ami.rb:43-46 | `sort_by` on `created`: the result is sorted and is a permutation of the input; `get_old_images` sorts its groups this way at lines 61-64, for 14-digit `created` stamps |
| Ami.LatestImage | lib/ec2ex/ami.rb:41-48 | nil (the `{}` of the code) exactly when the search is empty; otherwise an image of the search whose `created` (missing as `''`) is the largest |
| Ami.GroupNamesSpec | lib/ec2ex/ami.rb:54-58 | the group Names are the Names of the images that have both tags, each listed once |
| Ami.GroupSpec | lib/ec2ex/ami.rb:54-58 | a Name's group holds only search images with that Name, and is empty only when there are none |
| Ami.LastN | lib/ec2ex/ami.rb:65 | `last(num)` is the suffix of length `min(num, size)` |
| Ami.GroupByName | lib/ec2ex/ami.rb:53-58 | the loop's hash of arrays holds, for each Name in first-seen order, exactly that Name's group |
| Ami.GetOldImages | lib/ec2ex/ami.rb:50-69 | the method, with its early return for an empty search, computes the concatenation over Names of each group's sorted images minus their newest `num` |
| Ami.OldOfGroupFrom | lib/ec2ex/ami.rb:66 | every image a group contributes comes from that group |
| Ami.OldOfGroupOlder | lib/ec2ex/ami.rb:61-66 | every image given up has `created` ≤ every image kept among the newest `num` |
| Ami.OldOfGroupCount | lib/ec2ex/ami.rb:61-66 | a group of s distinct images gives up exactly max(0, s − num) |
| Ami.OldImagesByName | lib/ec2ex/ami.rb:60-67 | the returned images with Name n are exactly what n's group gives up |
| Ami.OldImagesCount | lib/ec2ex/ami.rb:60-67 | for each Name group of size s, exactly max(0, s − num) of its images are returned |
| Ami.OldImagesEligible | lib/ec2ex/ami.rb:56 | only search images with both a Name and a `created` tag are returned |
| Ami.EbsSnapshotIdsSpec | lib/ec2ex/ami.rb:91-93 | an id is collected exactly when some mapping has an `ebs` with that snapshot; there are no more ids than mappings |
| Ami.ReferencedSnapshotsSpec | lib/ec2ex/ami.rb:88-95 | the enabled ids are exactly the snapshots some image references |
| Ami.UnreferencedSnapshots | lib/ec2ex/ami.rb:88-104 | the deleted ids are `owned - enabled`, in owner order: an id is deleted exactly when the owner has it and no image references it |
| Ami.ReferencedKept | lib/ec2ex/ami.rb:100 | a snapshot referenced by some image is never deleted |
| Util.GroupCountSpec | lib/ec2ex/util.rb:17-19 | the keys are exactly the list's elements; each count is that element's number of occurrences, so at least 1 |
| Util.UniqSpec | lib/ec2ex/util.rb:18 | the hash's key order lists every element once |
| Util.GroupCountTotal | lib/ec2ex/util.rb:17-19 | the counts add up to the list's length |
| Creator.InThreads | lib/ec2ex/instance/creator.rb:27 | the thread cap is `min(instance_count, 20)`; `copy` and `spot` compute the same cap at lines 96 and 158 |
| Creator.SlicesSpec | lib/ec2ex/instance/creator.rb:99 | `each_slice` groups concatenate to the list; each has 1 to `size` elements, all but the last exactly `size` (the same slicing recurs at line 162) |
| Creator.SlicesAt | lib/ec2ex/instance/creator.rb:99 | group j is the run from `j*size` to `(j+1)*size` or the end (the same slicing recurs at line 162) |
| Creator.GroupsSpec | lib/ec2ex/instance/creator.rb:97-99 | the partition fails (`each_slice` of a size below 1) exactly when `instance_count` ≤ 0; otherwise the groups concatenate to `0..count-1` in order, each has 1 to cap indices, and all but the last have exactly the cap (the same partition recurs at lines 158-162) |
| Creator.GroupStart | lib/ec2ex/instance/creator.rb:99 | group j starts at index `j * cap` (also at line 162) |
| Creator.LastGroupOnly | lib/ec2ex/instance/creator.rb:101 | the value comparison `groups.last == group` holds for the final group only (also at line 164) |
| Creator.FanOut | lib/ec2ex/instance/creator.rb:99-142 | one batch per group, in order; a batch waits for status ok exactly when it is the final group; fails exactly when there is no server; the `spot` fan-out at lines 162-229 has the same shape |
| Creator.PositionTagsRoundTrip | lib/ec2ex/instance/creator.rb:73-74 | the `InstanceIndex` and `InstanceCount` tags read back as the server index and the count, and two servers never share an index tag; the same tags are written at lines 131-132 and 216-217 |
| Creator.Merge | lib/ec2ex/instance/creator.rb:62 | `merge!`: the keys of both; a `params` key overrides; every other key is kept; the same merge occurs at lines 120 and 205 |
| Creator.LaunchSpecification | lib/ec2ex/instance/creator.rb:30-60 | with a private address the spec has exactly one interface (device 0, the subnet, the groups, that address as the primary one) and no top-level groups or subnet; without one it has the top-level groups and subnet and no interface; the profile and key pair are present exactly when given; `spot` builds the same specification at lines 167-204 |
| Creator.MergeKeepsNetworking | lib/ec2ex/instance/creator.rb:62 | a `params` that leaves the networking keys alone keeps the interface-or-top-level choice (also at line 205) |
| Creator.RunSpotAddressing | lib/ec2ex/instance/creator.rb:19-25 | the address is the option's, else the recipe's; it fails when no subnet contains it (or there is none); it stops (exit 0) for a single server already answering ping; it keeps the address only when `instance_count == 1` |
| Creator.RunSpotOption | lib/ec2ex/instance/creator.rb:30-60 | one instance at the given price, with the recipe's type, the groups parsed from the recipe, networking as in `LaunchSpecification`, and the profile and key pair exactly when the recipe has them; it fails exactly when the groups are not a JSON array of strings in the compact form `to_json` writes |
| Creator.RelaunchTags | lib/ec2ex/instance/creator.rb:69-72 | the tags `run_spot` copies from the recipe are the source instance's tags, in hash form |
| Creator.RunSpotFromRecipe | lib/ec2ex/instance/creator.rb:18-59 | `run_spot` relaunches with the source's groups, type, key pair, profile name and private address |
| Creator.SpotPrivateIp | lib/ec2ex/instance/creator.rb:186-191 | the explicit option if given; otherwise the source's address when renewing; otherwise none |
| Creator.SpotRequestOption | lib/ec2ex/instance/creator.rb:166-204 | the source's type, groups and profile; the key pair exactly when the source has one, with its name; `persistent` as asked; with a private address the interface in the subnet that contains it (failing exactly when none does), without one the source's subnet |
| Creator.CopyBaseFixed | lib/ec2ex/instance/creator.rb:103-111 | every `copy` request has the image, one instance, the source's groups, type and placement, and no subnet yet |
| Creator.CopyBaseOptional | lib/ec2ex/instance/creator.rb:112-118 | the private address, profile name and key pair are present exactly when the option or the source provides them |
| Creator.CopyRequest | lib/ec2ex/instance/creator.rb:103-125 | `params` is merged over the base request; `subnet_id` is then taken from the merged private address, or is the source's subnet when there is none; it fails exactly when the address lies in no subnet |
| Creator.CopySubnetChoice | lib/ec2ex/instance/creator.rb:121-125 | without a `params` address, the subnet is the explicit address's subnet when one is given, else the source's subnet |
| Instance.InstancesFilter | lib/ec2ex/instance.rb:4-13 | one `tag:<key>` entry per condition pair, in order, then exactly one `instance-state-name` entry |
| Instance.TagFiltersSpec | lib/ec2ex/instance.rb:6-8 | each tag entry is `tag:` + key with the single value; none is named like the state entry |
| Instance.FilterRoundTrip | lib/ec2ex/instance.rb:6-8 | the condition pairs can be read back from the filter |
| Instance.FirstResult | lib/ec2ex/instance.rb:19-27 | the first result; exit status 1 exactly when nothing matched |
| Instance.WaitSpotRunning | lib/ec2ex/instance.rb:35-49 | the first settled answer decides: `active` returns its instance id, `failed` cancels and raises its fault message; the loop keeps polling exactly when no answer settles; it cancels exactly on failure |
| Instance.DeleteOnTermination | lib/ec2ex/instance.rb:72-81 | one mapping per device that keeps the name and volume and sets delete to true; it fails at the first device without `ebs` exactly when there is one |
| Instance.DeleteOnTerminationApplied | lib/ec2ex/instance.rb:72-81 | after the update every volume is the same and is deleted with the instance, and a second call sends the same mappings |
| Instance.ReservedTotals | lib/ec2ex/instance.rb:114-118 | per `type_az` key, the sum of the reservations' instance counts, with `|| 0` for a new key |
| Instance.ReservedSumAbsent | lib/ec2ex/instance.rb:126-130 | a key with no reservation has reserved total 0 |
| Instance.OnDemandRows | lib/ec2ex/instance.rb:119-128 | a row per on-demand key, with its number of instances and 0 reserved |
| Instance.AddReservedCounts | lib/ec2ex/instance.rb:129-133 | every reserved key gets its total, on its on-demand row (whose count is kept) or on a new row with 0 on-demand instances; other rows are unchanged |
| Instance.Reserved | lib/ec2ex/instance.rb:110-135 | the report's keys are the union of on-demand and reserved keys; each row has the on-demand count and the reserved sum, each 0 where that side has none; a reservation without an availability zone is keyed `type_`; the instances are the first of each describe reservation, as `instances_hash` returns them |
| Network.BlockBounds | lib/ec2ex/network.rb:16-17 | a CIDR block's range holds its own address and lies within the 32-bit space |
| Network.ContainsSpec | lib/ec2ex/network.rb:16-17 | an IP is in the block exactly when some address from the network address to the broadcast address renders as it in dotted-quad form |
| Network.ContainsEdges | lib/ec2ex/network.rb:16-17 | every address of the block is found, network and broadcast included |
| Network.GetSubnet | lib/ec2ex/network.rb:14-20 | the first subnet, in input order, that contains the IP, with no earlier subnet containing it; nil exactly when none does |
| Network.AssociateAddress | lib/ec2ex/network.rb:22-27 | no call for a nil address; otherwise the association with the address's allocation, failing when there is none |
| Network.Ping | lib/ec2ex/network.rb:29-38 | false for a nil address; otherwise the probe's answer |
| Cli.FirstAllowAny | lib/ec2ex/cli.rb:338-340 | the position of the first ingress entry with CIDR `0.0.0.0/0` and action `allow`, with none before it; none exactly when there is no such entry |
| Cli.AllowAnyRuleNumber | lib/ec2ex/cli.rb:338-340 | that rule's number; fails (nil `rule_number`) exactly when there is no allow-any rule |
| Cli.DenyCandidates | lib/ec2ex/cli.rb:342-343 | the selected entries are the ingress entries numbered below the allow-any rule, with their multiplicities |
| Cli.SortByNumber | lib/ec2ex/cli.rb:344 | sorted ascending by rule number, and a permutation of its input |
| Cli.DenyRulesSpec | lib/ec2ex/cli.rb:342-344 | the deny rules are sorted and are exactly the ingress entries numbered below the allow-any rule |
| Cli.NextRuleNumberSpec | lib/ec2ex/cli.rb:346 | 1 when there is no deny rule; otherwise the largest deny rule number + 1, above every deny rule |
| Cli.RegistDenyAcl | lib/ec2ex/cli.rb:335-359 | fails without an allow-any rule; creates nothing exactly when a deny rule already has `<ip>/32`; otherwise an ingress `deny` entry with protocol `-1`, CIDR `<ip>/32` and the next number |
| Cli.FirstAllowAnyAppend | lib/ec2ex/cli.rb:338-340 | an appended non-allow entry leaves the allow-any rule where it was |
| Cli.RegistDenyAclIdempotent | lib/ec2ex/cli.rb:348 | registering the same address again creates nothing, provided the first entry was numbered below the allow-any rule |
| Cli.DeleteDenyAclAll | lib/ec2ex/cli.rb:363-382 | fails exactly when there is no allow-any rule; otherwise the deletions are those of the deny rules sorted by number |
| Cli.DeleteEach | lib/ec2ex/cli.rb:373-380 | one ingress `delete_network_acl_entry` request per rule, for the given ACL, in the rules' order |
| Cli.DeletionsExact | lib/ec2ex/cli.rb:373-380 | every rule gets a deletion, every deletion is of one of the rules, and sorted rules give deletions by ascending number |
| Cli.DeleteDenyAclAllExact | lib/ec2ex/cli.rb:370-381 | every ingress rule below the allow-any rule is deleted, nothing else is, and deletions go by ascending number |
| Cli.CallsForSpec | lib/ec2ex/cli.rb:86-98 | an image is deregistered exactly when it is given, and a snapshot is deleted exactly when it backs an `ebs` mapping of one of them |
| Cli.DeregisterOldImages | lib/ec2ex/cli.rb:85-99 | for each old image in turn: deregister, then delete the snapshots of its non-nil `ebs` mappings |
| Cli.DeregisterOldImagesExact | lib/ec2ex/cli.rb:86-96 | only images that `get_old_images` gives up are deregistered, and only snapshots behind their `ebs` mappings are deleted |

## Left out

- AWS calls. The describe answers (instances, images, snapshots, subnets, allocations, ACL
  entries, reservations) are parameters. The create, run, request, tag, delete and associate
  calls are returned values.
- Waiters and sleeps. This covers the `wait_until` waiters, `wait_instance_status_ok`, `sleep`,
  and the `wait_until` after the spot request becomes active. Only the decision on each observed
  answer is modelled: `Instance.WaitSpotRunning` takes the sequence of answers.
- `Parallel.map` concurrency. Only the index partition and the per-group status-ok gate are
  modelled.
- `eval(options[:params])` is arbitrary Ruby. It is modelled as a given map merged last-wins
  (`Creator.Merge`).
- ERB. Only `${name}` substitution is modelled; other ERB markup would run Ruby code.
- Tag.RenderPlaceholder: the name is pasted into Ruby code as `preset_tag_hash['<name>']`
  (lib/ec2ex/tag.rb:7). A name containing `'` makes ERB raise `SyntaxError`, and a crafted name
  runs arbitrary Ruby. The model always performs the lookup; `Tag.Resolve` and `Tag.Render`
  share this gap.
- `Time.now` and `Time.parse`. The timestamp is a parameter. Sorting by `Time.parse(created)`
  is modelled as string order on the `created` tag, which agrees with time order for the
  14-digit stamps `create_image_with_instance` writes.
- Ami.GetOldImages: `Time.parse` (lib/ec2ex/ami.rb:63) raises `ArgumentError` for an empty or
  non-date `created` tag, and orders other date formats by time (`2023-06-15` against
  `20230101000000`), where the model compares the strings. `last(num)` (line 65) raises
  `ArgumentError` for a negative `--older_than`, which the model's `num: nat` excludes.
- JSON. Only arrays and objects of strings are handled, with `"` and `\` escaped. Control
  characters and unicode escapes are not modelled.
- CIDR notation. Subnet blocks are taken as already parsed (a 32-bit address and a prefix
  length). The IP is compared with the dotted-quad rendering of each address in the block,
  as `IPAddress#to_a` lists them.
- The ICMP probe is a parameter of `Network.Ping`. Logging, Thor option parsing, `puts` and
  `exit` messages are left out.
- `Network#get_public_ip_address` (lib/ec2ex/instance/creator.rb:144,231) is not part of this
  model. That method is not defined in lib/ec2ex/network.rb.
- `Creator#renew` (lib/ec2ex/instance/creator.rb:237-278) and the older `copy`, `spot`,
  `run_spot` and `renew` commands in lib/ec2ex/cli.rb are not modelled beyond what they share
  with `Creator`. Also left out are `create_image_with_instance`'s cross-region copy,
  `get_hash_from_id`, `get_own`, and the commands outside the ACL, image and reserved ones.
- Creator.RunSpotOption: returns the launch specification before `params` is merged. The merge
  itself is stated by `Creator.Merge` and `Creator.MergeKeepsNetworking`.
- Creator.RunSpotOption: `JSON.parse` (lib/ec2ex/instance/creator.rb:45) also accepts
  whitespace, `\/` and `\u` escapes. A hand-edited `security_groups` tag that Ruby can parse
  is treated as unparsable by the model, which reads only the compact form `to_json` writes.
- Creator.SpotRequestOption: returns the specification before `params` is merged, as above.
  Stopping or terminating the source instance is left out.
- Cli.RegistDenyAclIdempotent: requires that the first created entry is numbered below the
  allow-any rule. The code does not guarantee this (line 346 can reach the allow-any number),
  and then the second call tries to create the entry again.
- Cli.DeleteDenyAclAll: lib/ec2ex/cli.rb:366 reads `network_acl_set` while line 370 reads
  `network_acls`. Both are modelled as one entry list. A describe answer of the aws-sdk
  plausibly has no `network_acl_set`, so the command as written would stop with
  `NoMethodError` before deleting anything.
- Instance.Reserved: the report's key order and its JSON output are not modelled; only the
  rows are.
- Instance.Reserved: `instances_hash` (lib/ec2ex/instance.rb:16) keeps only the first instance
  of each reservation, so on-demand counts miss every further instance a reservation
  launched. The model takes that first-instance list as its input and counts it as the code
  does.
- Instance.Reserved: the CLI `reserved` command (lib/ec2ex/cli.rb:41-66) runs the same
  aggregation but joins the key with `+`, which raises `TypeError` for a reservation without an
  availability zone. Only the `Instance#reserved` behaviour, which keys it `type_`, is modelled.
- Ami.LatestImage: when several images share the largest `created`, the contract does not say
  which one is returned. Ruby's `sort_by` is not stable.
- Ami.OldImagesCount: requires that no image occurs twice in the search. Images are distinct
  in a describe answer, and `Array#-` drops every copy of a kept image.
