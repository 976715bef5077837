/**
 * Tag templating and tag maps (lib/ec2ex/tag.rb): `Tag.format` resolves a
 * key/value template into a `{key, value}` list, substituting `${name}` with
 * the preset tag's value; `Tag.get_hash` collapses a tag list into a lookup;
 * `Tag.get_ami_tag_hash` builds the relaunch recipe stored on an image.
 */
module Tag {
  import opened Common
  import opened Resources
  import Json

  /** One template entry: a key and a value that may be nil. */
  datatype Entry = Entry(key: string, value: Option<string>)

  // ---------------------------------------------------------------------
  // `${name}` substitution
  // ---------------------------------------------------------------------

  /** `preset_tag_hash['name']` rendered by `<%= %>`: a missing key gives "". */
  function Lookup(preset: map<string, string>, name: string): string
  {
    if name in preset then preset[name] else ""
  }

  /** The index of the first `}` at or after `i`. */
  function CloseBrace(s: string, i: nat): (j: Option<nat>)
    requires i <= |s|
    ensures j.Some? ==> i <= j.value < |s| && s[j.value] == '}'
    ensures j.Some? ==> forall k :: i <= k < j.value ==> s[k] != '}'
    ensures j.None? ==> forall k :: i <= k < |s| ==> s[k] != '}'
    decreases |s| - i
  {
    if i == |s| then None else if s[i] == '}' then Some(i) else CloseBrace(s, i + 1)
  }

  /**
   * `v.gsub(/\$\{([^}]+)\}/, ...)` followed by the template evaluation: scanning
   * left to right, a `${` followed by a non-empty run of characters other than
   * `}` and then a `}` is replaced by the preset value of that run; every other
   * character is kept.
   */
  function Render(s: string, preset: map<string, string>): string
    decreases |s|
  {
    if s == [] then []
    else if |s| >= 2 && s[0] == '$' && s[1] == '{' && CloseBrace(s, 2).Some? && CloseBrace(s, 2).value > 2 then
      var j := CloseBrace(s, 2).value;
      Lookup(preset, s[2..j]) + Render(s[j + 1..], preset)
    else
      [s[0]] + Render(s[1..], preset)
  }

  /** The resolved value of one template entry: nil gives "". */
  function Resolve(v: Option<string>, preset: map<string, string>): string
  {
    match v
    case None => ""
    case Some(s) => Render(s, preset)
  }

  /** A value with no `${` in it comes out unchanged. */
  lemma {:induction false} RenderPlain(s: string, preset: map<string, string>)
    requires NoOpening(s)
    ensures Render(s, preset) == s
    decreases |s|
  {
    if s != [] {
      assert !(|s| >= 2 && s[0] == '$' && s[1] == '{');
      assert NoOpening(s[1..]) by {
        forall i | 0 <= i < |s[1..]| - 1 ensures !(s[1..][i] == '$' && s[1..][i + 1] == '{') {
          assert s[1..][i] == s[i + 1] && s[1..][i + 1] == s[i + 2];
        }
      }
      RenderPlain(s[1..], preset);
      assert [s[0]] + s[1..] == s;
    }
  }

  /**
   * A placeholder is replaced by the preset value of its name, and a name the
   * preset lacks renders as nothing, never as the literal placeholder.
   */
  lemma RenderPlaceholder(name: string, rest: string, preset: map<string, string>)
    requires |name| >= 1 && forall k :: 0 <= k < |name| ==> name[k] != '}'
    ensures Render("${" + name + "}" + rest, preset) == Lookup(preset, name) + Render(rest, preset)
    ensures name in preset ==> Render("${" + name + "}" + rest, preset) == preset[name] + Render(rest, preset)
    ensures name !in preset ==> Render("${" + name + "}" + rest, preset) == Render(rest, preset)
  {
    var s := "${" + name + "}" + rest;
    var j := 2 + |name|;
    assert s[j] == '}';
    forall k | 2 <= k < j ensures s[k] != '}' { assert s[k] == name[k - 2]; }
    assert CloseBrace(s, 2) == Some(j);
    assert s[2..j] == name;
    assert s[j + 1..] == rest;
  }

  /** Text without `$` is copied through, whatever follows it. */
  lemma {:induction false} RenderLiteralPrefix(a: string, b: string, preset: map<string, string>)
    requires forall k :: 0 <= k < |a| ==> a[k] != '$'
    ensures Render(a + b, preset) == a + Render(b, preset)
    decreases |a|
  {
    if a == [] {
      assert a + b == b;
    } else {
      var s := a + b;
      assert s[0] == a[0] && s[1..] == a[1..] + b;
      RenderLiteralPrefix(a[1..], b, preset);
      assert [a[0]] + a[1..] == a;
    }
  }

  /**
   * Text with no `${` in it, including a `$` not followed by `{`, is copied
   * through, provided it does not end in a `$` that the rest opens with `{`.
   */
  lemma {:induction false} RenderPlainPrefix(a: string, b: string, preset: map<string, string>)
    requires NoOpening(a)
    requires a == [] || b == [] || a[|a| - 1] != '$' || b[0] != '{'
    ensures Render(a + b, preset) == a + Render(b, preset)
    decreases |a|
  {
    if a == [] {
      assert a + b == b;
    } else {
      var s := a + b;
      assert s[0] == a[0] && s[1..] == a[1..] + b;
      if |a| >= 2 {
        assert s[1] == a[1];
      } else {
        assert b != [] ==> s[1] == b[0];
      }
      NoOpeningSlice(a, 1, |a|);
      RenderPlainPrefix(a[1..], b, preset);
      assert [a[0]] + a[1..] == a;
    }
  }

  /** A dollar sign that opens no placeholder stays, and the placeholder after it is filled. */
  lemma RenderDollarExample()
    ensures Render("$5 ${x}", map["x" := "y"]) == "$5 y"
  {
    var preset := map["x" := "y"];
    assert NoOpening("$5 ");
    RenderPlainPrefix("$5 ", "${x}", preset);
    assert "$5 ${x}" == "$5 " + "${x}";
    RenderPlaceholder("x", "", preset);
    assert "${x}" == "${" + "x" + "}" + "";
    assert Lookup(preset, "x") == "y";
  }

  /** A found name, a name missing from the default preset, and a nil value. */
  lemma RenderExamples()
    ensures Resolve(Some("${stage}"), map["stage" := "prod"]) == "prod"
    ensures Resolve(Some("${missing}"), map[]) == ""
    ensures Resolve(None, map[]) == ""
  {
    RenderFoundExample();
    RenderMissingExample();
  }

  lemma RenderFoundExample()
    ensures Render("${stage}", map["stage" := "prod"]) == "prod"
  {
    var preset := map["stage" := "prod"];
    RenderPlaceholder("stage", "", preset);
    assert "${stage}" == "${" + "stage" + "}" + "";
    assert Lookup(preset, "stage") == "prod";
  }

  lemma RenderMissingExample()
    ensures Render("${missing}", map[]) == ""
  {
    RenderPlaceholder("missing", "", map[]);
    assert "${missing}" == "${" + "missing" + "}" + "";
  }

  // ---------------------------------------------------------------------
  // Tag.format
  // ---------------------------------------------------------------------

  /** The `{key, value}` list `Tag.format(template, preset)` returns. */
  function Formatted(template: seq<Entry>, preset: map<string, string>): (r: seq<TagPair>)
    ensures |r| == |template|
    ensures forall i :: 0 <= i < |template| ==>
      r[i].key == template[i].key && r[i].value == Resolve(template[i].value, preset)
    ensures forall i :: 0 <= i < |template| && template[i].value.None? ==> r[i].value == ""
  {
    if template == [] then []
    else
      var e := template[|template| - 1];
      Formatted(template[..|template| - 1], preset) + [TagPair(e.key, Resolve(e.value, preset))]
  }

  /** `Tag.format`: one pair per entry, in the template's order. */
  method Format(template: seq<Entry>, preset: map<string, string>) returns (tags: seq<TagPair>)
    ensures tags == Formatted(template, preset)
  {
    tags := [];
    for i := 0 to |template|
      invariant tags == Formatted(template[..i], preset)
    {
      var value := Resolve(template[i].value, preset);
      tags := tags + [TagPair(template[i].key, value)];
      assert template[..i + 1][..i] == template[..i];
    }
    assert template[..|template|] == template;
  }

  // ---------------------------------------------------------------------
  // Tag.get_hash
  // ---------------------------------------------------------------------

  /** Index `i` holds the last occurrence of its key. */
  predicate IsLastOfKey(tags: seq<TagPair>, i: nat)
    requires i < |tags|
  {
    forall j :: i < j < |tags| ==> tags[j].key != tags[i].key
  }

  /** The lookup `Tag.get_hash(tags)` gives. */
  function HashOf(tags: seq<TagPair>): map<string, string>
  {
    if tags == [] then map[]
    else
      var n := |tags| - 1;
      HashOf(tags[..n])[tags[n].key := tags[n].value]
  }

  /** The keys of a tag list, in order. */
  function Keys(tags: seq<TagPair>): (ks: seq<string>)
    ensures |ks| == |tags| && forall i :: 0 <= i < |tags| ==> ks[i] == tags[i].key
  {
    seq(|tags|, i requires 0 <= i < |tags| => tags[i].key)
  }

  /** `get_hash` has exactly the keys of the list. */
  lemma {:induction false} HashOfDomain(tags: seq<TagPair>)
    ensures forall k :: k in HashOf(tags) <==> k in Keys(tags)
  {
    if tags != [] {
      var n := |tags| - 1;
      HashOfDomain(tags[..n]);
      assert Keys(tags) == Keys(tags[..n]) + [tags[n].key];
    }
  }

  /** `get_hash` maps a key to the value of its last occurrence. */
  lemma {:induction false} HashOfLastWins(tags: seq<TagPair>, i: nat)
    requires i < |tags| && IsLastOfKey(tags, i)
    ensures tags[i].key in HashOf(tags) && HashOf(tags)[tags[i].key] == tags[i].value
  {
    var n := |tags| - 1;
    if i < n {
      assert tags[n].key != tags[i].key;
      assert tags[..n][i] == tags[i];
      assert IsLastOfKey(tags[..n], i) by {
        forall j | i < j < n ensures tags[..n][j].key != tags[..n][i].key { assert tags[..n][j] == tags[j]; }
      }
      HashOfLastWins(tags[..n], i);
    }
  }

  /** `Tag.get_hash`: a later duplicate key overwrites an earlier one. */
  method GetHash(tags: seq<TagPair>) returns (result: map<string, string>)
    ensures result == HashOf(tags)
  {
    result := map[];
    for i := 0 to |tags|
      invariant result == HashOf(tags[..i])
    {
      result := result[tags[i].key := tags[i].value];
      assert tags[..i + 1][..i] == tags[..i];
    }
    assert tags[..|tags|] == tags;
  }

  predicate DistinctKeys(tags: seq<TagPair>)
  {
    forall i, j :: 0 <= i < j < |tags| ==> tags[i].key != tags[j].key
  }

  predicate DistinctEntryKeys(template: seq<Entry>)
  {
    forall i, j :: 0 <= i < j < |template| ==> template[i].key != template[j].key
  }

  /** No present value of the template holds a `${`. */
  predicate PlainValues(template: seq<Entry>)
  {
    forall i :: 0 <= i < |template| && template[i].value.Some? ==> NoOpening(template[i].value.value)
  }

  /**
   * Round trip: for a template with distinct keys whose values are free of
   * `${`, `get_hash(format(template))` has exactly the template's keys and maps
   * each to its template value, a nil value to "".
   */
  lemma FormatGetHashRoundTrip(template: seq<Entry>, preset: map<string, string>)
    requires DistinctEntryKeys(template)
    requires PlainValues(template)
    ensures var h := HashOf(Formatted(template, preset));
      (forall k :: k in h <==> HasKey(template, k)) &&
      (forall i :: 0 <= i < |template| ==> h[template[i].key] == template[i].value.GetOr(""))
  {
    var r := Formatted(template, preset);
    HashOfDomain(r);
    forall i | 0 <= i < |template|
      ensures HashOf(r)[template[i].key] == template[i].value.GetOr("")
    {
      if template[i].value.Some? { RenderPlain(template[i].value.value, preset); }
      HashOfLastWins(r, i);
    }
    forall k | k in Keys(r) ensures HasKey(template, k) {
      var i :| 0 <= i < |r| && Keys(r)[i] == k;
      assert template[i].key == k;
    }
  }

  /** Every value `get_hash` gives is the value of some pair with that key. */
  lemma {:induction false} HashOfValueFrom(tags: seq<TagPair>, k: string)
    requires k in HashOf(tags)
    ensures TagPair(k, HashOf(tags)[k]) in tags
  {
    var n := |tags| - 1;
    if tags[n].key != k {
      HashOfValueFrom(tags[..n], k);
      assert tags[..n] <= tags;
    }
  }

  // ---------------------------------------------------------------------
  // The Ruby hash behind get_hash, in insertion order (what `to_json` writes)
  // ---------------------------------------------------------------------

  /** The distinct keys of a tag list in order of first appearance. */
  function FirstKeys(tags: seq<TagPair>): seq<string>
  {
    if tags == [] then []
    else
      var n := |tags| - 1;
      var f := FirstKeys(tags[..n]);
      if tags[n].key in f then f else f + [tags[n].key]
  }

  lemma {:induction false} FirstKeysSpec(tags: seq<TagPair>)
    ensures forall k :: k in FirstKeys(tags) <==> k in Keys(tags)
    ensures forall i, j :: 0 <= i < j < |FirstKeys(tags)| ==> FirstKeys(tags)[i] != FirstKeys(tags)[j]
  {
    if tags != [] {
      var n := |tags| - 1;
      FirstKeysSpec(tags[..n]);
      assert Keys(tags) == Keys(tags[..n]) + [tags[n].key];
    }
  }

  /**
   * The hash `Tag.get_hash(tags)` builds, as its pairs in iteration order: a
   * Ruby hash keeps a key where it was first inserted and takes the value
   * assigned last.
   */
  function RubyHash(tags: seq<TagPair>): (h: seq<TagPair>)
    ensures DistinctKeys(h)
    ensures HashOf(h) == HashOf(tags)
    ensures forall i :: 0 <= i < |h| ==> h[i] in tags
  {
    var ks := FirstKeys(tags);
    FirstKeysSpec(tags);
    HashOfDomain(tags);
    var h := seq(|ks|, i requires 0 <= i < |ks| => TagPair(ks[i], HashOf(tags)[ks[i]]));
    HashOfDomain(h);
    forall i | 0 <= i < |h| ensures HashOf(h)[h[i].key] == h[i].value { HashOfLastWins(h, i); }
    assert Keys(h) == ks;
    forall i | 0 <= i < |h| ensures h[i] in tags { HashOfValueFrom(tags, ks[i]); }
    h
  }
  lemma {:induction false} FirstKeysOfDistinct(tags: seq<TagPair>)
    requires DistinctKeys(tags)
    ensures FirstKeys(tags) == Keys(tags)
  {
    if tags != [] {
      var n := |tags| - 1;
      assert DistinctKeys(tags[..n]) by {
        forall i, j | 0 <= i < j < n ensures tags[..n][i].key != tags[..n][j].key {
          assert tags[..n][i] == tags[i] && tags[..n][j] == tags[j];
        }
      }
      FirstKeysOfDistinct(tags[..n]);
      assert tags[n].key !in Keys(tags[..n]);
      assert Keys(tags) == Keys(tags[..n]) + [tags[n].key];
    }
  }

  /** A list with distinct keys is already in hash form. */
  lemma RubyHashOfDistinct(tags: seq<TagPair>)
    requires DistinctKeys(tags)
    ensures RubyHash(tags) == tags
  {
    FirstKeysOfDistinct(tags);
    var h := RubyHash(tags);
    assert |h| == |tags|;
    forall i | 0 <= i < |tags| ensures h[i] == tags[i] {
      assert IsLastOfKey(tags, i);
      HashOfLastWins(tags, i);
    }
  }

  /** A tag list as the pairs `to_json` writes. */
  function AsPairs(tags: seq<TagPair>): (ps: seq<(string, string)>)
    ensures |ps| == |tags| && forall i :: 0 <= i < |tags| ==> ps[i] == (tags[i].key, tags[i].value)
  {
    seq(|tags|, i requires 0 <= i < |tags| => (tags[i].key, tags[i].value))
  }

  /** Parsed pairs as a tag list. */
  function AsTags(ps: seq<(string, string)>): (tags: seq<TagPair>)
    ensures |tags| == |ps| && forall i :: 0 <= i < |ps| ==> tags[i] == TagPair(ps[i].0, ps[i].1)
  {
    seq(|ps|, i requires 0 <= i < |ps| => TagPair(ps[i].0, ps[i].1))
  }

  /** A hash of strings used as a template: every value present. */
  function AsTemplate(tags: seq<TagPair>): (t: seq<Entry>)
    ensures |t| == |tags| && forall i :: 0 <= i < |tags| ==> t[i] == Entry(tags[i].key, Some(tags[i].value))
  {
    seq(|tags|, i requires 0 <= i < |tags| => Entry(tags[i].key, Some(tags[i].value)))
  }

  /** Formatting a template of plain strings gives the strings back. */
  lemma FormatPlain(tags: seq<TagPair>, preset: map<string, string>)
    requires forall i :: 0 <= i < |tags| ==> NoOpening(tags[i].value)
    ensures Formatted(AsTemplate(tags), preset) == tags
  {
    var r := Formatted(AsTemplate(tags), preset);
    forall i | 0 <= i < |tags| ensures r[i] == tags[i] {
      RenderPlain(tags[i].value, preset);
    }
  }

  /**
   * `format(get_hash(tags))` gives the pairs of the hash back, in its order,
   * when no value holds a `${`; so `get_hash` of that is `get_hash(tags)`.
   */
  lemma HashFormatRoundTrip(tags: seq<TagPair>, preset: map<string, string>)
    requires forall i :: 0 <= i < |tags| ==> NoOpening(tags[i].value)
    ensures Formatted(AsTemplate(RubyHash(tags)), preset) == RubyHash(tags)
    ensures HashOf(Formatted(AsTemplate(RubyHash(tags)), preset)) == HashOf(tags)
  {
    var rh := RubyHash(tags);
    forall i | 0 <= i < |rh| ensures NoOpening(rh[i].value) {
      var j :| 0 <= j < |tags| && tags[j] == rh[i];
    }
    FormatPlain(rh, preset);
  }

  // ---------------------------------------------------------------------
  // Tag.get_ami_tag_hash: the relaunch recipe stored on an image
  // ---------------------------------------------------------------------

  /** `s` without its trailing `/` characters. */
  function TrimSlashes(s: string): (t: string)
    ensures t <= s && (t == [] || t[|t| - 1] != '/')
    ensures forall k :: |t| <= k < |s| ==> s[k] == '/'
  {
    if s != [] && s[|s| - 1] == '/' then TrimSlashes(s[..|s| - 1]) else s
  }

  /**
   * `arn.split('/').last`: `split` drops trailing empty fields, so this is the
   * last segment before any trailing slashes, and nil for an ARN made only of
   * slashes.
   */
  function ArnName(arn: string): (r: Option<string>)
    ensures r.None? <==> forall k :: 0 <= k < |arn| ==> arn[k] == '/'
    ensures r.Some? ==> |r.value| >= 1 && forall k :: 0 <= k < |r.value| ==> r.value[k] != '/'
    ensures r.Some? ==> var t := TrimSlashes(arn);
      |r.value| <= |t| && t[|t| - |r.value|..] == r.value && (|r.value| == |t| || t[|t| - |r.value| - 1] == '/')
  {
    var t := TrimSlashes(arn);
    if t == [] then None else Some(AfterLast(t, '/'))
  }

  predicate HasKey(h: seq<Entry>, k: string)
  {
    exists i :: 0 <= i < |h| && h[i].key == k
  }

  /** The keys `get_ami_tag_hash` always writes. */
  const AlwaysKeys: seq<string> :=
    ["created", "tags", "Name", "security_groups", "private_ip_address", "instance_type", "placement"]

  /** `tags['Name']` on the instance's tag hash. */
  function NameTag(tags: seq<TagPair>): Option<string>
  {
    if "Name" in HashOf(tags) then Some(HashOf(tags)["Name"]) else None
  }

  /**
   * The hash `get_ami_tag_hash(instance, get_hash(instance.tags))` returns, in
   * its insertion order, given the `created` timestamp.
   */
  function Recipe(inst: Instance, created: string): seq<Entry>
  {
    RecipeHead(inst, created) + RecipePublicIp(inst) + RecipeMiddle(inst) + RecipeIam(inst) + RecipeKeyName(inst)
  }

  function RecipeHead(inst: Instance, created: string): seq<Entry>
  {
    [Entry("created", Some(created)),
     Entry("tags", Some(Json.ObjectJson(AsPairs(RubyHash(inst.tags))))),
     Entry("Name", NameTag(inst.tags)),
     Entry("security_groups", Some(Json.ArrayJson(inst.securityGroupIds))),
     Entry("private_ip_address", inst.privateIp)]
  }

  function RecipePublicIp(inst: Instance): seq<Entry>
  {
    if inst.publicIp.Some? then [Entry("public_ip_address", inst.publicIp)] else []
  }

  function RecipeMiddle(inst: Instance): seq<Entry>
  {
    [Entry("instance_type", Some(inst.instanceType)),
     Entry("placement", Some(Json.ObjectJson(inst.placement)))]
  }

  function RecipeIam(inst: Instance): seq<Entry>
  {
    if inst.iamProfileArn.Some? then [Entry("iam_instance_profile", ArnName(inst.iamProfileArn.value))] else []
  }

  function RecipeKeyName(inst: Instance): seq<Entry>
  {
    if inst.keyName.Some? then [Entry("key_name", inst.keyName)] else []
  }

  /**
   * The recipe's keys: the seven fixed ones always, `public_ip_address`,
   * `iam_instance_profile` and `key_name` exactly when the instance has them,
   * and no key twice.
   */
  lemma RecipeKeys(inst: Instance, created: string)
    ensures DistinctEntryKeys(Recipe(inst, created))
    ensures forall k :: k in AlwaysKeys ==> HasKey(Recipe(inst, created), k)
    ensures HasKey(Recipe(inst, created), "public_ip_address") <==> inst.publicIp.Some?
    ensures HasKey(Recipe(inst, created), "iam_instance_profile") <==> inst.iamProfileArn.Some?
    ensures HasKey(Recipe(inst, created), "key_name") <==> inst.keyName.Some?
  {
    RecipeKeyLengths(inst, created);
    RecipeAlwaysKeys(inst, created);
    RecipePublicIpKey(inst, created);
    RecipeIamKey(inst, created);
    RecipeKeyNameKey(inst, created);
  }

  lemma RecipeAlwaysKeys(inst: Instance, created: string)
    ensures forall k :: k in AlwaysKeys ==> HasKey(Recipe(inst, created), k)
  {
    RecipeValues(inst, created);
  }

  lemma RecipePublicIpKey(inst: Instance, created: string)
    ensures HasKey(Recipe(inst, created), "public_ip_address") <==> inst.publicIp.Some?
  {
    var h := Recipe(inst, created);
    RecipeKeyLengths(inst, created);
    if inst.publicIp.Some? {
      RecipeValues(inst, created);
      InHasKey(h, Entry("public_ip_address", inst.publicIp));
    } else {
      NoKeyOfLength(h, RecipeLengths(inst), "public_ip_address");
    }
  }

  lemma RecipeIamKey(inst: Instance, created: string)
    ensures HasKey(Recipe(inst, created), "iam_instance_profile") <==> inst.iamProfileArn.Some?
  {
    var h := Recipe(inst, created);
    RecipeKeyLengths(inst, created);
    if inst.iamProfileArn.Some? {
      RecipeValues(inst, created);
      InHasKey(h, Entry("iam_instance_profile", ArnName(inst.iamProfileArn.value)));
    } else {
      NoKeyOfLength(h, RecipeLengths(inst), "iam_instance_profile");
    }
  }

  lemma RecipeKeyNameKey(inst: Instance, created: string)
    ensures HasKey(Recipe(inst, created), "key_name") <==> inst.keyName.Some?
  {
    var h := Recipe(inst, created);
    RecipeKeyLengths(inst, created);
    if inst.keyName.Some? {
      RecipeValues(inst, created);
      InHasKey(h, Entry("key_name", inst.keyName));
    } else {
      NoKeyOfLength(h, RecipeLengths(inst), "key_name");
    }
  }

  lemma InHasKey(h: seq<Entry>, e: Entry)
    requires e in h
    ensures HasKey(h, e.key)
  {
    var i :| 0 <= i < |h| && h[i] == e;
  }

  /** The lengths of the recipe's keys: each key has its own length, except `tags` and `Name`. */
  function RecipeLengths(inst: Instance): set<int>
  {
    {4, 7, 15, 18}
    + (if inst.publicIp.Some? then {17} else {})
    + {9, 13}
    + (if inst.iamProfileArn.Some? then {20} else {})
    + (if inst.keyName.Some? then {8} else {})
  }

  lemma RecipeKeyLengths(inst: Instance, created: string)
    ensures DistinctEntryKeys(Recipe(inst, created))
    ensures KeyLengthsIn(Recipe(inst, created), RecipeLengths(inst))
  {
    RecipeHeadLengths(inst, created);
    RecipeOptionalLengths(inst);
    LayoutLengths(RecipeHead(inst, created), RecipePublicIp(inst), RecipeMiddle(inst), RecipeIam(inst), RecipeKeyName(inst),
      if inst.publicIp.Some? then {17} else {},
      if inst.iamProfileArn.Some? then {20} else {},
      if inst.keyName.Some? then {8} else {});
  }

  lemma RecipeOptionalLengths(inst: Instance)
    ensures KeyLengthsIn(RecipeMiddle(inst), {9, 13}) && DistinctEntryKeys(RecipeMiddle(inst))
    ensures KeyLengthsIn(RecipePublicIp(inst), if inst.publicIp.Some? then {17} else {})
    ensures KeyLengthsIn(RecipeIam(inst), if inst.iamProfileArn.Some? then {20} else {})
    ensures KeyLengthsIn(RecipeKeyName(inst), if inst.keyName.Some? then {8} else {})
    ensures DistinctEntryKeys(RecipePublicIp(inst)) && DistinctEntryKeys(RecipeIam(inst))
    ensures DistinctEntryKeys(RecipeKeyName(inst))
  {
  }

  /** The recipe's layout: five pieces whose keys have pairwise disjoint lengths. */
  lemma LayoutLengths(head: seq<Entry>, pub: seq<Entry>, mid: seq<Entry>, iam: seq<Entry>, key: seq<Entry>,
                      lp: set<int>, li: set<int>, lk: set<int>)
    requires DistinctEntryKeys(head) && KeyLengthsIn(head, {4, 7, 15, 18})
    requires DistinctEntryKeys(mid) && KeyLengthsIn(mid, {9, 13})
    requires DistinctEntryKeys(pub) && DistinctEntryKeys(iam) && DistinctEntryKeys(key)
    requires KeyLengthsIn(pub, lp) && KeyLengthsIn(iam, li) && KeyLengthsIn(key, lk)
    requires lp <= {17} && li <= {20} && lk <= {8}
    ensures DistinctEntryKeys(head + pub + mid + iam + key)
    ensures KeyLengthsIn(head + pub + mid + iam + key, {4, 7, 15, 18} + lp + {9, 13} + li + lk)
  {
    var lh, lm := {4, 7, 15, 18}, {9, 13};
    DisjointConcat(head, pub, lh, lp);
    DisjointConcat(head + pub, mid, lh + lp, lm);
    DisjointConcat(head + pub + mid, iam, lh + lp + lm, li);
    DisjointConcat(head + pub + mid + iam, key, lh + lp + lm + li, lk);
  }

  lemma RecipeHeadLengths(inst: Instance, created: string)
    ensures DistinctEntryKeys(RecipeHead(inst, created))
    ensures KeyLengthsIn(RecipeHead(inst, created), {4, 7, 15, 18})
  {
    var head := RecipeHead(inst, created);
    assert head[1].key != head[2].key;
  }

  /** Every key `get_ami_tag_hash` may write. */
  const RecipeKeyNames: seq<string> := AlwaysKeys + ["public_ip_address", "iam_instance_profile", "key_name"]

  /** The recipe has no key besides the ten it may write. */
  lemma RecipeKeysWithin(inst: Instance, created: string)
    ensures forall k :: HasKey(Recipe(inst, created), k) ==> k in RecipeKeyNames
  {
    var head, pub, mid, iam, key :=
      RecipeHead(inst, created), RecipePublicIp(inst), RecipeMiddle(inst), RecipeIam(inst), RecipeKeyName(inst);
    var h := Recipe(inst, created);
    assert KeysIn(head, RecipeKeyNames) && KeysIn(pub, RecipeKeyNames) && KeysIn(mid, RecipeKeyNames);
    assert KeysIn(iam, RecipeKeyNames) && KeysIn(key, RecipeKeyNames);
    KeysInConcat(head, pub, RecipeKeyNames);
    KeysInConcat(head + pub, mid, RecipeKeyNames);
    KeysInConcat(head + pub + mid, iam, RecipeKeyNames);
    KeysInConcat(head + pub + mid + iam, key, RecipeKeyNames);
    forall k | HasKey(h, k) ensures k in RecipeKeyNames {
      var i :| 0 <= i < |h| && h[i].key == k;
    }
  }

  predicate KeysIn(h: seq<Entry>, ks: seq<string>)
  {
    forall i :: 0 <= i < |h| ==> h[i].key in ks
  }

  lemma KeysInConcat(a: seq<Entry>, b: seq<Entry>, ks: seq<string>)
    requires KeysIn(a, ks) && KeysIn(b, ks)
    ensures KeysIn(a + b, ks)
  {
    forall i | 0 <= i < |a + b| ensures (a + b)[i].key in ks {
      if i >= |a| { assert (a + b)[i] == b[i - |a|]; }
    }
  }

  /** Every key of `h` has one of the lengths in `ls`. */
  predicate KeyLengthsIn(h: seq<Entry>, ls: set<int>)
  {
    forall i :: 0 <= i < |h| ==> |h[i].key| in ls
  }

  lemma NoKeyOfLength(h: seq<Entry>, ls: set<int>, k: string)
    requires KeyLengthsIn(h, ls) && |k| !in ls
    ensures !HasKey(h, k)
  {
  }

  /** Concatenating two hashes whose keys have disjoint lengths keeps keys distinct. */
  lemma DisjointConcat(a: seq<Entry>, b: seq<Entry>, la: set<int>, lb: set<int>)
    requires DistinctEntryKeys(a) && DistinctEntryKeys(b)
    requires KeyLengthsIn(a, la) && KeyLengthsIn(b, lb) && la !! lb
    ensures DistinctEntryKeys(a + b) && KeyLengthsIn(a + b, la + lb)
  {
    forall i, j | 0 <= i < j < |a + b| ensures (a + b)[i].key != (a + b)[j].key {
      if j < |a| {
      } else if i >= |a| {
        assert (a + b)[i] == b[i - |a|] && (a + b)[j] == b[j - |a|];
      } else {
        assert |a[i].key| in la && |b[j - |a|].key| in lb;
      }
    }
  }

  /** What each recipe key holds. */
  lemma RecipeValues(inst: Instance, created: string)
    ensures Entry("created", Some(created)) in Recipe(inst, created)
    ensures Entry("tags", Some(Json.ObjectJson(AsPairs(RubyHash(inst.tags))))) in Recipe(inst, created)
    ensures Entry("Name", NameTag(inst.tags)) in Recipe(inst, created)
    ensures Entry("security_groups", Some(Json.ArrayJson(inst.securityGroupIds))) in Recipe(inst, created)
    ensures Entry("private_ip_address", inst.privateIp) in Recipe(inst, created)
    ensures inst.publicIp.Some? ==> Entry("public_ip_address", inst.publicIp) in Recipe(inst, created)
    ensures Entry("instance_type", Some(inst.instanceType)) in Recipe(inst, created)
    ensures Entry("placement", Some(Json.ObjectJson(inst.placement))) in Recipe(inst, created)
    ensures inst.iamProfileArn.Some? ==>
      Entry("iam_instance_profile", ArnName(inst.iamProfileArn.value)) in Recipe(inst, created)
    ensures inst.keyName.Some? ==> Entry("key_name", inst.keyName) in Recipe(inst, created)
  {
    var head, pub, mid, iam, key :=
      RecipeHead(inst, created), RecipePublicIp(inst), RecipeMiddle(inst), RecipeIam(inst), RecipeKeyName(inst);
    assert Recipe(inst, created) == head + pub + mid + iam + key;
    assert head[0] in head && head[1] in head && head[2] in head && head[3] in head && head[4] in head;
    assert mid[0] in mid && mid[1] in mid;
    assert inst.publicIp.Some? ==> pub[0] in pub;
    assert inst.iamProfileArn.Some? ==> iam[0] in iam;
    assert inst.keyName.Some? ==> key[0] in key;
  }

  /** `Tag.get_ami_tag_hash`: the hash is filled key by key, the optional keys only when present. */
  method AmiTagHash(inst: Instance, created: string) returns (h: seq<Entry>)
    ensures h == Recipe(inst, created)
  {
    var tagsJson := Json.ObjectJson(AsPairs(RubyHash(inst.tags)));
    h := [Entry("created", Some(created)), Entry("tags", Some(tagsJson)), Entry("Name", NameTag(inst.tags))];
    h := h + [Entry("security_groups", Some(Json.ArrayJson(inst.securityGroupIds)))];
    h := h + [Entry("private_ip_address", inst.privateIp)];
    assert h == RecipeHead(inst, created);
    if inst.publicIp.Some? {
      h := h + [Entry("public_ip_address", inst.publicIp)];
    }
    assert h == RecipeHead(inst, created) + RecipePublicIp(inst);
    h := h + [Entry("instance_type", Some(inst.instanceType))];
    h := h + [Entry("placement", Some(Json.ObjectJson(inst.placement)))];
    assert h == RecipeHead(inst, created) + RecipePublicIp(inst) + RecipeMiddle(inst);
    if inst.iamProfileArn.Some? {
      h := h + [Entry("iam_instance_profile", ArnName(inst.iamProfileArn.value))];
    }
    if inst.keyName.Some? {
      h := h + [Entry("key_name", inst.keyName)];
    }
  }
}
