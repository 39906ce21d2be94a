/** The presentation side of a stored audit (the `Audit` trait): flattening the
    audit into one ordered key/value array, splitting its keys into metadata and
    modified attributes, reading values back through the attribute modifiers and
    the models' formatting, and splitting the tag list.
 */
module AuditTrait {
  import opened PhpArrays
  import opened PhpStrings

  datatype Option<T> = None | Some(value: T)

  /** A value held in an audit column or array: PHP scalars, null and date objects
      (`DateTimeInterface`, identified by an instant). */
  datatype Value = Null | Bool(b: bool) | Int(i: int) | Str(s: string) | DateTime(instant: int)

  /** A registered attribute modifier. An encoder's `encode` was applied when the
      audit was built; presenting the audit applies its `decode`. A redactor is
      one-way and is never undone. */
  datatype Modifier = Encoder(encode: Value -> Value, decode: Value -> Value) | Redactor

  /** An Eloquent model as the presentation code sees it: its arrayable
      attributes, its attribute modifiers (meaningful for the audited model), and
      `format`, standing for `getFormattedValue($model, $key, $value)`, which
      applies the model's get mutators, casts and date handling and is left
      uninterpreted here. */
  datatype Model = Model(
    arrayable: Dict<Value>,
    modifiers: map<string, Modifier>,
    format: (string, Value) -> Value)

  /** The stored columns of one audit row. `morphUserId` and `morphUserType` are
      the attributes `<morph_prefix>_id` and `<morph_prefix>_type` (the prefix is
      configuration, `user` by default). */
  datatype Columns = Columns(
    auditTrailsId: Value,
    event: Value,
    url: Value,
    ipAddress: Value,
    browser: Value,
    tags: Option<string>,
    createdAt: Value,
    updatedAt: Value,
    morphUserId: Value,
    morphUserType: Value,
    newValues: Dict<Value>,
    oldValues: Dict<Value>)

  /** The ten keys of the fixed metadata block, in order. */
  const FixedMetadataKeys: seq<string> :=
    ["audit_id", "audit_event", "audit_url", "audit_ip_address", "audit_user_agent",
     "audit_tags", "audit_created_at", "audit_updated_at", "USER_ID", "USER_MODEL"]

  function TagsValue(tags: Option<string>): Value {
    if tags.Some? then Str(tags.value) else Null
  }

  /** The fixed metadata block; the two timestamps go through `serializeDate`. */
  function MetadataBlock(row: Columns, serializeDate: Value -> Value): seq<(string, Value)> {
    [("audit_id", row.auditTrailsId),
     ("audit_event", row.event),
     ("audit_url", row.url),
     ("audit_ip_address", row.ipAddress),
     ("audit_user_agent", row.browser),
     ("audit_tags", TagsValue(row.tags)),
     ("audit_created_at", serializeDate(row.createdAt)),
     ("audit_updated_at", serializeDate(row.updatedAt)),
     ("USER_ID", row.morphUserId),
     ("USER_MODEL", row.morphUserType)]
  }

  /** The entries of `m` with `p` put in front of every key, in the order of `m`. */
  function Prefixed(p: string, m: seq<(string, Value)>): seq<(string, Value)> {
    seq(|m|, i requires 0 <= i < |m| => (p + m[i].0, m[i].1))
  }

  /** One `user_<attribute>` entry per arrayable attribute of a loaded user. */
  function UserBlock(user: Option<Model>): seq<(string, Value)> {
    if user.Some? then Prefixed("user_", user.value.arrayable) else []
  }

  function MetadataEntries(row: Columns, user: Option<Model>, serializeDate: Value -> Value): seq<(string, Value)> {
    MetadataBlock(row, serializeDate) + UserBlock(user)
  }

  /** The `new_<attribute>` keys, then the `old_<attribute>` keys. */
  function ModifiedKeys(row: Columns): seq<string> {
    Keys(Prefixed("new_", row.newValues)) + Keys(Prefixed("old_", row.oldValues))
  }

  /** The flattened audit: metadata, user attributes, new values, old values. */
  function ResolvedData(row: Columns, user: Option<Model>, serializeDate: Value -> Value): Dict<Value> {
    ResolvedDataDistinct(row, user, serializeDate);
    MetadataEntries(row, user, serializeDate) + Prefixed("new_", row.newValues) + Prefixed("old_", row.oldValues)
  }

  // ---------------------------------------------------------------------------
  // Keys of the four blocks never collide

  /** Every key of `ks` is non-empty and starts with one of `cs`. */
  predicate LeadsWith(ks: seq<string>, cs: set<char>) {
    forall k | k in ks :: k != "" && k[0] in cs
  }

  lemma PrefixedLeadsWith(p: string, m: seq<(string, Value)>)
    requires p != ""
    ensures LeadsWith(Keys(Prefixed(p, m)), {p[0]})
  {
    forall k | k in Keys(Prefixed(p, m))
      ensures k != "" && k[0] == p[0]
    {
      var i :| 0 <= i < |m| && Keys(Prefixed(p, m))[i] == k;
      assert k == p + m[i].0;
    }
  }

  lemma StripPrefix(p: string, a: string, b: string)
    requires p + a == p + b
    ensures a == b
  {
    assert (p + a)[|p|..] == a;
    assert (p + b)[|p|..] == b;
  }

  lemma PrefixedDistinct(p: string, m: Dict<Value>)
    ensures DistinctKeys(Prefixed(p, m))
  {
    forall i, j | 0 <= i < j < |m|
      ensures p + m[i].0 != p + m[j].0
    {
      if p + m[i].0 == p + m[j].0 {
        StripPrefix(p, m[i].0, m[j].0);
      }
    }
  }

  lemma LeadsWithApart(a: seq<string>, b: seq<string>, ca: set<char>, cb: set<char>)
    requires LeadsWith(a, ca) && LeadsWith(b, cb) && ca * cb == {}
    ensures forall k | k in a :: k !in b
  {
    forall k | k in a && k in b
      ensures k[0] in ca * cb
    {
    }
  }

  lemma MetadataEntriesShape(row: Columns, user: Option<Model>, serializeDate: Value -> Value)
    ensures DistinctKeys(MetadataEntries(row, user, serializeDate))
    ensures LeadsWith(Keys(MetadataEntries(row, user, serializeDate)), {'a', 'U', 'u'})
    ensures Keys(MetadataBlock(row, serializeDate)) == FixedMetadataKeys
    ensures LeadsWith(FixedMetadataKeys, {'a', 'U'})
  {
    var block := MetadataBlock(row, serializeDate);
    FixedBlockKeys(row, serializeDate);
    var users := UserBlock(user);
    if user.Some? {
      PrefixedDistinct("user_", user.value.arrayable);
      PrefixedLeadsWith("user_", user.value.arrayable);
    }
    assert LeadsWith(Keys(users), {'u'});
    LeadsWithApart(Keys(block), Keys(users), {'a', 'U'}, {'u'});
    DistinctKeysConcat(block, users);
    KeysConcat(block, users);
  }

  /** The fixed block's keys are the ten fixed keys, each starting with `a` or `U`. */
  lemma FixedBlockKeys(row: Columns, serializeDate: Value -> Value)
    ensures Keys(MetadataBlock(row, serializeDate)) == FixedMetadataKeys
    ensures DistinctKeys(MetadataBlock(row, serializeDate))
    ensures LeadsWith(FixedMetadataKeys, {'a', 'U'})
  {
    assert Keys(MetadataBlock(row, serializeDate)) == FixedMetadataKeys;
  }

  lemma ResolvedDataDistinct(row: Columns, user: Option<Model>, serializeDate: Value -> Value)
    ensures DistinctKeys(MetadataEntries(row, user, serializeDate) + Prefixed("new_", row.newValues) + Prefixed("old_", row.oldValues))
  {
    var meta := MetadataEntries(row, user, serializeDate);
    var news := Prefixed("new_", row.newValues);
    var olds := Prefixed("old_", row.oldValues);
    MetadataEntriesShape(row, user, serializeDate);
    PrefixedDistinct("new_", row.newValues);
    PrefixedDistinct("old_", row.oldValues);
    PrefixedLeadsWith("new_", row.newValues);
    PrefixedLeadsWith("old_", row.oldValues);
    LeadsWithApart(Keys(meta), Keys(news), {'a', 'U', 'u'}, {'n'});
    DistinctKeysConcat(meta, news);
    KeysConcat(meta, news);
    assert LeadsWith(Keys(meta) + Keys(news), {'a', 'U', 'u', 'n'});
    assert LeadsWith(Keys(meta + news), {'a', 'U', 'u', 'n'});
    LeadsWithApart(Keys(meta + news), Keys(olds), {'a', 'U', 'u', 'n'}, {'o'});
    DistinctKeysConcat(meta + news, olds);
  }

  lemma PrefixedSnoc(p: string, m: seq<(string, Value)>, i: nat)
    requires i < |m|
    ensures Prefixed(p, m[..i + 1]) == Prefixed(p, m[..i]) + [(p + m[i].0, m[i].1)]
  {
  }

  /** Inserting `p + m[i].0` after `front` and the first `i` prefixed entries of
      `m` appends it: the key is new, because it starts differently from every
      key of `front` and its attribute differs from the earlier ones. */
  lemma PutPrefixedAppends(front: Dict<Value>, cs: set<char>, p: string, m: Dict<Value>, i: nat, d: Dict<Value>)
    requires LeadsWith(Keys(front), cs) && p != "" && p[0] !in cs
    requires i < |m| && d == front + Prefixed(p, m[..i])
    ensures Put(d, p + m[i].0, m[i].1) == front + Prefixed(p, m[..i + 1])
  {
    var k := p + m[i].0;
    PrefixedLeadsWith(p, [m[i]]);
    assert Keys(Prefixed(p, [m[i]])) == [k];
    KeysConcat(front, Prefixed(p, m[..i]));
    assert k !in Keys(front) by {
      assert k[0] == p[0];
    }
    if k in Keys(Prefixed(p, m[..i])) {
      var j :| 0 <= j < i && Keys(Prefixed(p, m[..i]))[j] == k;
      StripPrefix(p, m[j].0, m[i].0);
    }
    PrefixedSnoc(p, m, i);
  }

  /** The key set of the metadata: the ten fixed keys, then `user_<a>` for every
      arrayable attribute `a` of the user, present only when a user is loaded. */
  lemma MetadataKeysAre(row: Columns, user: Option<Model>, serializeDate: Value -> Value)
    ensures var md := Keys(MetadataEntries(row, user, serializeDate));
      && |md| == 10 + (if user.Some? then |user.value.arrayable| else 0)
      && md[..10] == FixedMetadataKeys
      && forall a :: "user_" + a in md <==> user.Some? && a in Keys(user.value.arrayable)
  {
    var block := MetadataBlock(row, serializeDate);
    var md := Keys(MetadataEntries(row, user, serializeDate));
    MetadataEntriesShape(row, user, serializeDate);
    KeysConcat(block, UserBlock(user));
    assert md[..10] == FixedMetadataKeys;
    forall a
      ensures "user_" + a in md <==> user.Some? && a in Keys(user.value.arrayable)
    {
      var k := "user_" + a;
      assert k[0] == 'u';
      assert k !in Keys(block);
      UserKeyMember(user, a);
    }
  }

  /** `user_<a>` is a key of the user block exactly when a user is loaded and `a`
      is one of its arrayable attributes. */
  lemma UserKeyMember(user: Option<Model>, a: string)
    ensures "user_" + a in Keys(UserBlock(user)) <==> user.Some? && a in Keys(user.value.arrayable)
  {
    var k := "user_" + a;
    if user.Some? {
      var attrs := user.value.arrayable;
      if k in Keys(UserBlock(user)) {
        var j :| 0 <= j < |attrs| && Keys(UserBlock(user))[j] == k;
        StripPrefix("user_", attrs[j].0, a);
        assert Keys(attrs)[j] == a;
      }
      if a in Keys(attrs) {
        var j :| 0 <= j < |attrs| && Keys(attrs)[j] == a;
        assert Keys(UserBlock(user))[j] == k;
      }
    }
  }


  /** The entry `p + k` of a prefixed block holds the value of `k`. */
  lemma GetPrefixed(front: Dict<Value>, p: string, m: Dict<Value>, back: Dict<Value>, d: Dict<Value>, k: string)
    requires d == front + Prefixed(p, m) + back
    requires k in Keys(m)
    ensures p + k in Keys(d) && Get(d, p + k) == Get(m, k)
  {
    var i := IndexOf(m, k);
    var pos := |front| + i;
    assert d[pos] == (p + k, m[i].1);
    GetAt(d, pos);
    GetAt(m, i);
  }

  /** Every stored new value is reachable as `new_<key>`, every old value as `old_<key>`. */
  lemma NewAndOldValuesStored(row: Columns, user: Option<Model>, serializeDate: Value -> Value)
    ensures var d := ResolvedData(row, user, serializeDate);
      && (forall k | k in Keys(row.newValues) :: "new_" + k in Keys(d) && Get(d, "new_" + k) == Get(row.newValues, k))
      && (forall k | k in Keys(row.oldValues) :: "old_" + k in Keys(d) && Get(d, "old_" + k) == Get(row.oldValues, k))
  {
    var d := ResolvedData(row, user, serializeDate);
    var meta := MetadataEntries(row, user, serializeDate);
    var news := Prefixed("new_", row.newValues);
    var olds := Prefixed("old_", row.oldValues);
    MetadataEntriesShape(row, user, serializeDate);
    PrefixedDistinct("new_", row.newValues);
    PrefixedDistinct("old_", row.oldValues);
    assert d == meta + news + olds by {
      ResolvedDataDistinct(row, user, serializeDate);
    }
    forall k | k in Keys(row.newValues)
      ensures "new_" + k in Keys(d) && Get(d, "new_" + k) == Get(row.newValues, k)
    {
      GetPrefixed(meta, "new_", row.newValues, olds, d, k);
    }
    forall k | k in Keys(row.oldValues)
      ensures "old_" + k in Keys(d) && Get(d, "old_" + k) == Get(row.oldValues, k)
    {
      assert d == (meta + news) + olds + [];
      DistinctKeysSplit(meta + news, olds);
      GetPrefixed(meta + news, "old_", row.oldValues, [], d, k);
    }
  }

  /** The positional `array_diff_key` over the resolved keys yields exactly the
      `new_`/`old_` keys in insertion order; metadata and modified keys are
      disjoint and together are all the keys of the data. */
  lemma ModifiedKeysOfResolved(row: Columns, user: Option<Model>, serializeDate: Value -> Value)
    ensures ArrayDiffKey(Keys(ResolvedData(row, user, serializeDate)), Keys(MetadataEntries(row, user, serializeDate)))
      == ModifiedKeys(row)
  {
    MetadataModifiedPartition(row, user, serializeDate);
  }

  lemma MetadataModifiedPartition(row: Columns, user: Option<Model>, serializeDate: Value -> Value)
    ensures var ks := Keys(ResolvedData(row, user, serializeDate));
      var md := Keys(MetadataEntries(row, user, serializeDate));
      var mod := ArrayDiffKey(ks, md);
      && mod == ModifiedKeys(row)
      && (forall k :: k in ks <==> k in md || k in mod)
      && (forall k | k in md :: k !in mod)
  {
    var d := ResolvedData(row, user, serializeDate);
    var meta := MetadataEntries(row, user, serializeDate);
    var news := Prefixed("new_", row.newValues);
    var olds := Prefixed("old_", row.oldValues);
    KeysConcat(meta + news, olds);
    KeysConcat(meta, news);
    var ks := Keys(d);
    var md := Keys(meta);
    assert ks == md + ModifiedKeys(row);
    assert ks[..|md|] == md;
    KeysDistinct(d);
    ArrayDiffKeyOfPrefix(ks, md);
  }

  // ---------------------------------------------------------------------------
  // Reading values back

  /** `decodeAttributeValue`: an attribute without a registered modifier, or whose
      modifier is not an encoder, is passed through; an encoder's `decode` is
      applied otherwise. */
  function DecodeAttributeValue(auditable: Model, attribute: string, value: Value): (r: Value)
    ensures attribute !in auditable.modifiers ==> r == value
    ensures attribute in auditable.modifiers && auditable.modifiers[attribute].Redactor? ==> r == value
    ensures attribute in auditable.modifiers && auditable.modifiers[attribute].Encoder? ==>
      r == auditable.modifiers[attribute].decode(value)
  {
    if attribute !in auditable.modifiers then value
    else
      match auditable.modifiers[attribute]
      case Encoder(_, decode) => decode(value)
      case Redactor => value
  }

  /** `getDataValue`: null for an absent key; a `user_` key of a loaded user is
      formatted by the user model; a `new_`/`old_` key of a loaded auditable is
      decoded and formatted by the auditable model; anything else is the raw
      stored value. */
  function GetDataValue(data: Dict<Value>, user: Option<Model>, auditable: Option<Model>, key: string): (v: Value)
    ensures key !in Keys(data) ==> v == Null
    ensures key in Keys(data) && user.Some? && StartsWith(key, "user_") ==>
      v == user.value.format(Substr(key, 5), Get(data, key))
    ensures key in Keys(data) && user.None? && StartsWith(key, "user_") ==> v == Get(data, key)
    ensures key in Keys(data) && !StartsWith(key, "user_") && !StartsWith(key, "new_") && !StartsWith(key, "old_") ==>
      v == Get(data, key)
    ensures key in Keys(data) && auditable.None? && (StartsWith(key, "new_") || StartsWith(key, "old_")) ==>
      v == Get(data, key)
  {
    if key !in Keys(data) then Null
    else
      var value := Get(data, key);
      if user.Some? && StartsWith(key, "user_") then
        StartsWithFirst(key, "user_");
        user.value.format(Substr(key, 5), value)
      else if auditable.Some? && (StartsWith(key, "new_") || StartsWith(key, "old_")) then
        assert !StartsWith(key, "user_") by {
          if StartsWith(key, "new_") { StartsWithFirst(key, "new_"); }
          if StartsWith(key, "old_") { StartsWithFirst(key, "old_"); }
          if StartsWith(key, "user_") { StartsWithFirst(key, "user_"); }
        }
        var attribute := Substr(key, 4);
        assert StartsWith(key, "new_") ==> key[0] == 'n' by {
          if StartsWith(key, "new_") { StartsWithFirst(key, "new_"); }
        }
        auditable.value.format(attribute, DecodeAttributeValue(auditable.value, attribute, value))
      else value
  }

  /** A date object is serialized; every other value is kept. */
  function Present(v: Value, serializeDate: Value -> Value): Value {
    if v.DateTime? then serializeDate(v) else v
  }

  /** The keys of `keys` paired with their presented values, in order. */
  function PresentedEntries(keys: seq<string>, data: Dict<Value>, user: Option<Model>, auditable: Option<Model>,
                            serializeDate: Value -> Value): seq<(string, Value)>
  {
    seq(|keys|, j requires 0 <= j < |keys| => (keys[j], Present(GetDataValue(data, user, auditable, keys[j]), serializeDate)))
  }

  /** Reading `new_<k>` back from a resolved audit gives the stored new value,
      decoded and formatted by the auditable model when one is loaded. */
  lemma DataValueOfNewValue(row: Columns, user: Option<Model>, auditable: Option<Model>, serializeDate: Value -> Value, k: string)
    requires k in Keys(row.newValues)
    ensures var v := GetDataValue(ResolvedData(row, user, serializeDate), user, auditable, "new_" + k);
      v == if auditable.Some?
           then auditable.value.format(k, DecodeAttributeValue(auditable.value, k, Get(row.newValues, k)))
           else Get(row.newValues, k)
  {
    NewAndOldValuesStored(row, user, serializeDate);
    var key := "new_" + k;
    assert key[..4] == "new_" && key[4..] == k;
    assert !StartsWith(key, "user_") by { assert key[0] == 'n'; }
  }

  /** Reading `user_<a>` back from a resolved audit with a loaded user gives the
      user's arrayable attribute `a`, formatted by the user model. */
  lemma DataValueOfUserAttribute(row: Columns, user: Option<Model>, auditable: Option<Model>,
                                 serializeDate: Value -> Value, a: string)
    requires user.Some? && a in Keys(user.value.arrayable)
    ensures GetDataValue(ResolvedData(row, user, serializeDate), user, auditable, "user_" + a)
            == user.value.format(a, Get(user.value.arrayable, a))
  {
    var d := ResolvedData(row, user, serializeDate);
    var block := MetadataBlock(row, serializeDate);
    var news := Prefixed("new_", row.newValues);
    var olds := Prefixed("old_", row.oldValues);
    var meta := MetadataEntries(row, user, serializeDate);
    assert d == meta + (news + olds);
    DistinctKeysSplit(meta, news + olds);
    assert d == block + Prefixed("user_", user.value.arrayable) + (news + olds);
    GetPrefixed(block, "user_", user.value.arrayable, news + olds, d, a);
    var key := "user_" + a;
    assert key[..5] == "user_";
    SubstrAfterPrefix("user_", a);
  }

  /** The same for `old_<k>`. */
  lemma DataValueOfOldValue(row: Columns, user: Option<Model>, auditable: Option<Model>, serializeDate: Value -> Value, k: string)
    requires k in Keys(row.oldValues)
    ensures var v := GetDataValue(ResolvedData(row, user, serializeDate), user, auditable, "old_" + k);
      v == if auditable.Some?
           then auditable.value.format(k, DecodeAttributeValue(auditable.value, k, Get(row.oldValues, k)))
           else Get(row.oldValues, k)
  {
    NewAndOldValuesStored(row, user, serializeDate);
    var key := "old_" + k;
    assert key[..4] == "old_" && key[4..] == k;
    assert !StartsWith(key, "user_") by { assert key[0] == 'o'; }
    assert !StartsWith(key, "new_") by { assert key[0] == 'o'; }
  }

  /** An encoded new value reads back as the value before encoding, whenever the
      encoder's `decode` undoes its `encode` on it. */
  lemma EncodedNewValueReadsBack(row: Columns, user: Option<Model>, auditable: Model, serializeDate: Value -> Value,
                                 k: string, original: Value)
    requires k in Keys(row.newValues)
    requires k in auditable.modifiers && auditable.modifiers[k].Encoder?
    requires Get(row.newValues, k) == auditable.modifiers[k].encode(original)
    requires auditable.modifiers[k].decode(auditable.modifiers[k].encode(original)) == original
    ensures GetDataValue(ResolvedData(row, user, serializeDate), user, Some(auditable), "new_" + k) == auditable.format(k, original)
  {
    DataValueOfNewValue(row, user, Some(auditable), serializeDate, k);
  }

  /** The fixed metadata keys read back as the stored columns, unformatted. */
  lemma DataValueOfFixedMetadata(row: Columns, user: Option<Model>, auditable: Option<Model>, serializeDate: Value -> Value, i: nat)
    requires i < 10
    ensures GetDataValue(ResolvedData(row, user, serializeDate), user, auditable, FixedMetadataKeys[i])
            == MetadataBlock(row, serializeDate)[i].1
  {
    var d := ResolvedData(row, user, serializeDate);
    MetadataEntriesShape(row, user, serializeDate);
    var key := FixedMetadataKeys[i];
    assert d[i] == MetadataBlock(row, serializeDate)[i];
    assert d[i].0 == key;
    GetAt(d, i);
    assert key in FixedMetadataKeys;
    assert key[0] == 'a' || key[0] == 'U';
    NotStartsWith(key, "user_");
    NotStartsWith(key, "new_");
    NotStartsWith(key, "old_");
  }

  lemma NotStartsWith(key: string, p: string)
    requires key != "" && p != "" && key[0] != p[0]
    ensures !StartsWith(key, p)
  {
    if StartsWith(key, p) {
      StartsWithFirst(key, p);
    }
  }

  // ---------------------------------------------------------------------------
  // Regrouping the modified keys by attribute

  /** `substr($key, 4)`: the attribute named by a `new_`/`old_` key. */
  function AttributeOf(key: string): string {
    Substr(key, 4)
  }

  /** `substr($key, 0, 3)`: `new` or `old`. */
  function StateOf(key: string): string {
    Prefix(key, 3)
  }

  /** `$modified[$attribute][$state] = $value` for one key. */
  function AddModified(g: Dict<Dict<Value>>, key: string, value: Value): Dict<Dict<Value>> {
    var attribute := AttributeOf(key);
    var inner := if attribute in Keys(g) then Get(g, attribute) else [];
    Put(g, attribute, Put(inner, StateOf(key), value))
  }

  /** The entries of `e`, one after the other, regrouped by attribute. */
  function GroupByAttribute(e: seq<(string, Value)>): Dict<Dict<Value>> {
    if e == [] then [] else AddModified(GroupByAttribute(e[..|e| - 1]), e[|e| - 1].0, e[|e| - 1].1)
  }

  /** One insertion into the grouping: it adds the key's attribute and, under it,
      the key's state with the new value, and keeps every other pair. */
  lemma AddModifiedShape(g: Dict<Dict<Value>>, key: string, v: Value)
    ensures var g' := AddModified(g, key, v);
      && (forall a :: a in Keys(g') <==> a in Keys(g) || a == AttributeOf(key))
      && (forall a, s | a in Keys(g') :: s in Keys(Get(g', a)) <==>
            (a in Keys(g) && s in Keys(Get(g, a))) || (a == AttributeOf(key) && s == StateOf(key)))
      && (forall a, s | a in Keys(g) && s in Keys(Get(g, a)) && (a != AttributeOf(key) || s != StateOf(key)) ::
            Get(Get(g', a), s) == Get(Get(g, a), s))
      && HoldsAt(g', AttributeOf(key), StateOf(key), v)
  {
    AddModifiedAttributes(g, key, v);
    AddModifiedStates(g, key, v);
    forall a, s | a in Keys(g) && s in Keys(Get(g, a)) && (a != AttributeOf(key) || s != StateOf(key))
      ensures Get(Get(AddModified(g, key, v), a), s) == Get(Get(g, a), s)
    {
      HoldsAfterAdd(g, key, v, a, s, Get(Get(g, a), s));
    }
    HoldsAtAdded(g, key, v);
  }

  lemma AddModifiedAttributes(g: Dict<Dict<Value>>, key: string, v: Value)
    ensures forall a :: a in Keys(AddModified(g, key, v)) <==> a in Keys(g) || a == AttributeOf(key)
  {
  }

  lemma AddModifiedStates(g: Dict<Dict<Value>>, key: string, v: Value)
    ensures var g' := AddModified(g, key, v);
      forall a, s | a in Keys(g') :: s in Keys(Get(g', a)) <==>
        (a in Keys(g) && s in Keys(Get(g, a))) || (a == AttributeOf(key) && s == StateOf(key))
  {
    forall a, s | a in Keys(AddModified(g, key, v))
      ensures s in Keys(Get(AddModified(g, key, v), a)) <==>
        (a in Keys(g) && s in Keys(Get(g, a))) || (a == AttributeOf(key) && s == StateOf(key))
    {
      AddModifiedState(g, key, v, a, s);
    }
  }

  lemma AddModifiedState(g: Dict<Dict<Value>>, key: string, v: Value, a: string, s: string)
    requires a in Keys(AddModified(g, key, v))
    ensures s in Keys(Get(AddModified(g, key, v), a)) <==>
      (a in Keys(g) && s in Keys(Get(g, a))) || (a == AttributeOf(key) && s == StateOf(key))
  {
    var a0, s0 := AttributeOf(key), StateOf(key);
    var inner := if a0 in Keys(g) then Get(g, a0) else [];
    var added := Put(inner, s0, v);
    var g' := Put(g, a0, added);
    assert g' == AddModified(g, key, v);
    if a == a0 {
      assert Get(g', a) == added;
      assert s in Keys(added) <==> s in Keys(inner) || s == s0;
    } else {
      assert Get(g', a) == Get(g, a);
    }
  }

  lemma HoldsAtAdded(g: Dict<Dict<Value>>, key: string, v: Value)
    ensures HoldsAt(AddModified(g, key, v), AttributeOf(key), StateOf(key), v)
  {
  }

  /** The grouping holds `v` under attribute `a` and state `s`. */
  predicate HoldsAt(g: Dict<Dict<Value>>, a: string, s: string, v: Value) {
    a in Keys(g) && s in Keys(Get(g, a)) && Get(Get(g, a), s) == v
  }

  /** Inserting a different attribute and state keeps what the grouping held. */
  lemma HoldsAfterAdd(g: Dict<Dict<Value>>, key: string, v: Value, a: string, s: string, w: Value)
    requires HoldsAt(g, a, s, w) && (a != AttributeOf(key) || s != StateOf(key))
    ensures HoldsAt(AddModified(g, key, v), a, s, w)
  {
    var a0, s0 := AttributeOf(key), StateOf(key);
    var inner := if a0 in Keys(g) then Get(g, a0) else [];
    var g' := Put(g, a0, Put(inner, s0, v));
    assert g' == AddModified(g, key, v);
    if a == a0 {
      assert Get(g', a) == Put(inner, s0, v);
    } else {
      assert Get(g', a) == Get(g, a);
    }
  }

  /** Some entry of `e` names attribute `a`. */
  predicate NamesAttribute(e: seq<(string, Value)>, a: string) {
    exists j | 0 <= j < |e| :: AttributeOf(e[j].0) == a
  }

  /** Some entry of `e` names attribute `a` with state `s`. */
  predicate NamesPair(e: seq<(string, Value)>, a: string, s: string) {
    exists j | 0 <= j < |e| :: AttributeOf(e[j].0) == a && StateOf(e[j].0) == s
  }

  lemma NamesAttributeSnoc(e: seq<(string, Value)>, a: string)
    requires e != []
    ensures NamesAttribute(e, a) <==> NamesAttribute(e[..|e| - 1], a) || AttributeOf(e[|e| - 1].0) == a
  {
    var init := e[..|e| - 1];
    if NamesAttribute(e, a) {
      var j :| 0 <= j < |e| && AttributeOf(e[j].0) == a;
      if j < |init| { assert init[j] == e[j]; }
    }
    if NamesAttribute(init, a) {
      var j :| 0 <= j < |init| && AttributeOf(init[j].0) == a;
      assert e[j] == init[j];
    }
  }

  lemma NamesPairSnoc(e: seq<(string, Value)>, a: string, s: string)
    requires e != []
    ensures NamesPair(e, a, s) <==>
      NamesPair(e[..|e| - 1], a, s) || (AttributeOf(e[|e| - 1].0) == a && StateOf(e[|e| - 1].0) == s)
    ensures NamesPair(e[..|e| - 1], a, s) ==> NamesAttribute(e[..|e| - 1], a)
  {
    var init := e[..|e| - 1];
    if NamesPair(e, a, s) {
      var j :| 0 <= j < |e| && AttributeOf(e[j].0) == a && StateOf(e[j].0) == s;
      if j < |init| { assert init[j] == e[j]; }
    }
    if NamesPair(init, a, s) {
      var j :| 0 <= j < |init| && AttributeOf(init[j].0) == a && StateOf(init[j].0) == s;
      assert e[j] == init[j];
    }
  }

  /** An attribute is a key of the grouping exactly when some entry names it, and
      a state is a key under it exactly when some entry names both. */
  lemma {:induction false} GroupShape(e: seq<(string, Value)>)
    ensures forall a :: a in Keys(GroupByAttribute(e)) <==> NamesAttribute(e, a)
    ensures forall a, s | a in Keys(GroupByAttribute(e)) :: s in Keys(Get(GroupByAttribute(e), a)) <==> NamesPair(e, a, s)
  {
    if e != [] {
      var init := e[..|e| - 1];
      GroupShape(init);
      ShapeStep(GroupByAttribute(init), e);
    }
  }

  lemma ShapeStep(g: Dict<Dict<Value>>, e: seq<(string, Value)>)
    requires e != []
    requires forall a :: a in Keys(g) <==> NamesAttribute(e[..|e| - 1], a)
    requires forall a, s | a in Keys(g) :: s in Keys(Get(g, a)) <==> NamesPair(e[..|e| - 1], a, s)
    ensures var g' := AddModified(g, e[|e| - 1].0, e[|e| - 1].1);
      && (forall a :: a in Keys(g') <==> NamesAttribute(e, a))
      && (forall a, s | a in Keys(g') :: s in Keys(Get(g', a)) <==> NamesPair(e, a, s))
  {
    var x := e[|e| - 1];
    var g' := AddModified(g, x.0, x.1);
    forall a
      ensures a in Keys(g') <==> NamesAttribute(e, a)
    {
      AddModifiedAttributes(g, x.0, x.1);
      NamesAttributeSnoc(e, a);
    }
    forall a, s | a in Keys(g')
      ensures s in Keys(Get(g', a)) <==> NamesPair(e, a, s)
    {
      ShapeStepState(g, e, a, s);
    }
  }

  lemma ShapeStepState(g: Dict<Dict<Value>>, e: seq<(string, Value)>, a: string, s: string)
    requires e != []
    requires a in Keys(g) <==> NamesAttribute(e[..|e| - 1], a)
    requires a in Keys(g) ==> (s in Keys(Get(g, a)) <==> NamesPair(e[..|e| - 1], a, s))
    requires a in Keys(AddModified(g, e[|e| - 1].0, e[|e| - 1].1))
    ensures var g' := AddModified(g, e[|e| - 1].0, e[|e| - 1].1);
      s in Keys(Get(g', a)) <==> NamesPair(e, a, s)
  {
    var x := e[|e| - 1];
    AddModifiedStates(g, x.0, x.1);
    NamesPairSnoc(e, a, s);
  }

  /** No two entries name the same attribute and state. */
  predicate PairsDistinct(e: seq<(string, Value)>) {
    forall i, j | 0 <= i < j < |e| :: AttributeOf(e[i].0) != AttributeOf(e[j].0) || StateOf(e[i].0) != StateOf(e[j].0)
  }


  /** Each entry's value is found under its attribute and state. */
  lemma {:induction false} GroupValues(e: seq<(string, Value)>)
    requires PairsDistinct(e)
    ensures forall j | 0 <= j < |e| :: HoldsAt(GroupByAttribute(e), AttributeOf(e[j].0), StateOf(e[j].0), e[j].1)
  {
    if e != [] {
      var init := e[..|e| - 1];
      PairsDistinctInit(e);
      GroupValues(init);
      var g := GroupByAttribute(init);
      forall j | 0 <= j < |e| - 1
        ensures HoldsAt(g, AttributeOf(e[j].0), StateOf(e[j].0), e[j].1)
      {
        assert init[j] == e[j];
      }
      ValuesStep(g, e);
    }
  }

  lemma PairsDistinctInit(e: seq<(string, Value)>)
    requires PairsDistinct(e) && e != []
    ensures PairsDistinct(e[..|e| - 1])
  {
    var init := e[..|e| - 1];
    forall i, j | 0 <= i < j < |init|
      ensures AttributeOf(init[i].0) != AttributeOf(init[j].0) || StateOf(init[i].0) != StateOf(init[j].0)
    {
      assert init[i] == e[i] && init[j] == e[j];
    }
  }

  lemma ValuesStep(g: Dict<Dict<Value>>, e: seq<(string, Value)>)
    requires PairsDistinct(e) && e != []
    requires forall j | 0 <= j < |e| - 1 :: HoldsAt(g, AttributeOf(e[j].0), StateOf(e[j].0), e[j].1)
    ensures forall j | 0 <= j < |e| ::
      HoldsAt(AddModified(g, e[|e| - 1].0, e[|e| - 1].1), AttributeOf(e[j].0), StateOf(e[j].0), e[j].1)
  {
    var x := e[|e| - 1];
    forall j | 0 <= j < |e|
      ensures HoldsAt(AddModified(g, x.0, x.1), AttributeOf(e[j].0), StateOf(e[j].0), e[j].1)
    {
      if j < |e| - 1 {
        HoldsAfterAdd(g, x.0, x.1, AttributeOf(e[j].0), StateOf(e[j].0), e[j].1);
      } else {
        HoldsAtAdded(g, x.0, x.1);
      }
    }
  }

  /** Each modified key is `new_` with an attribute of the new values at the same
      position, or `old_` with an attribute of the old values after them. */
  lemma ModifiedEntryShape(row: Columns, e: Dict<Value>, j: nat)
    requires Keys(e) == ModifiedKeys(row) && j < |e|
    ensures var nv := row.newValues; var ov := row.oldValues;
      || (j < |nv| && e[j].0 == "new_" + nv[j].0 && AttributeOf(e[j].0) == nv[j].0 && StateOf(e[j].0) == "new")
      || (|nv| <= j && e[j].0 == "old_" + ov[j - |nv|].0 && AttributeOf(e[j].0) == ov[j - |nv|].0 && StateOf(e[j].0) == "old")
  {
    var nv := row.newValues;
    var ov := row.oldValues;
    KeysConcat(Prefixed("new_", nv), Prefixed("old_", ov));
    var key := e[j].0;
    assert key == Keys(e)[j];
    if j < |nv| {
      assert key == "new_" + nv[j].0;
      assert key[4..] == nv[j].0 && key[..3] == "new";
    } else {
      assert key == "old_" + ov[j - |nv|].0;
      assert key[4..] == ov[j - |nv|].0 && key[..3] == "old";
    }
  }

  lemma ModifiedPairsDistinct(row: Columns, e: Dict<Value>)
    requires Keys(e) == ModifiedKeys(row)
    ensures PairsDistinct(e)
  {
    forall i, j | 0 <= i < j < |e|
      ensures AttributeOf(e[i].0) != AttributeOf(e[j].0) || StateOf(e[i].0) != StateOf(e[j].0)
    {
      ModifiedEntryShape(row, e, i);
      ModifiedEntryShape(row, e, j);
    }
  }

  /** Some entry of `e` names attribute `a` exactly when `a` has a new or an old value. */
  lemma ModifiedNamesAttribute(row: Columns, e: Dict<Value>, a: string)
    requires Keys(e) == ModifiedKeys(row)
    ensures NamesAttribute(e, a) <==> a in Keys(row.newValues) || a in Keys(row.oldValues)
  {
    var nv := row.newValues;
    var ov := row.oldValues;
    if NamesAttribute(e, a) {
      var j :| 0 <= j < |e| && AttributeOf(e[j].0) == a;
      ModifiedEntryShape(row, e, j);
      if j < |nv| { assert Keys(nv)[j] == a; } else { assert Keys(ov)[j - |nv|] == a; }
    }
    if a in Keys(nv) {
      var i :| 0 <= i < |nv| && Keys(nv)[i] == a;
      ModifiedEntryShape(row, e, i);
    } else if a in Keys(ov) {
      var i :| 0 <= i < |ov| && Keys(ov)[i] == a;
      ModifiedEntryShape(row, e, |nv| + i);
    }
  }

  /** Some entry of `e` is `new_<a>` exactly when `a` has a new value, and
      `old_<a>` exactly when it has an old one; no other state is named. */
  lemma ModifiedNamesPair(row: Columns, e: Dict<Value>, a: string, s: string)
    requires Keys(e) == ModifiedKeys(row)
    ensures NamesPair(e, a, s) <==> (s == "new" && a in Keys(row.newValues)) || (s == "old" && a in Keys(row.oldValues))
  {
    var nv := row.newValues;
    var ov := row.oldValues;
    if NamesPair(e, a, s) {
      var j :| 0 <= j < |e| && AttributeOf(e[j].0) == a && StateOf(e[j].0) == s;
      ModifiedEntryShape(row, e, j);
      if j < |nv| { assert Keys(nv)[j] == a; } else { assert Keys(ov)[j - |nv|] == a; }
    }
    if s == "new" && a in Keys(nv) {
      var i :| 0 <= i < |nv| && Keys(nv)[i] == a;
      ModifiedEntryShape(row, e, i);
    }
    if s == "old" && a in Keys(ov) {
      var i :| 0 <= i < |ov| && Keys(ov)[i] == a;
      ModifiedEntryShape(row, e, |nv| + i);
    }
  }

  /** `getModified` on a resolved audit: its attributes are those of the new and
      the old values; under each, `new` is present exactly when the attribute has
      a new value, `old` exactly when it has an old one, and no other state is. */
  lemma ModifiedShape(row: Columns, e: Dict<Value>)
    requires Keys(e) == ModifiedKeys(row)
    ensures var g := GroupByAttribute(e);
      && (forall a :: a in Keys(g) <==> a in Keys(row.newValues) || a in Keys(row.oldValues))
      && (forall a | a in Keys(g) ::
            && ("new" in Keys(Get(g, a)) <==> a in Keys(row.newValues))
            && ("old" in Keys(Get(g, a)) <==> a in Keys(row.oldValues))
            && (forall s | s in Keys(Get(g, a)) :: s == "new" || s == "old"))
  {
    GroupShape(e);
    ShapeFromNames(row, e, GroupByAttribute(e));
  }

  lemma ShapeFromNames(row: Columns, e: Dict<Value>, g: Dict<Dict<Value>>)
    requires Keys(e) == ModifiedKeys(row)
    requires forall a :: a in Keys(g) <==> NamesAttribute(e, a)
    requires forall a, s | a in Keys(g) :: s in Keys(Get(g, a)) <==> NamesPair(e, a, s)
    ensures forall a :: a in Keys(g) <==> a in Keys(row.newValues) || a in Keys(row.oldValues)
    ensures forall a | a in Keys(g) ::
      && ("new" in Keys(Get(g, a)) <==> a in Keys(row.newValues))
      && ("old" in Keys(Get(g, a)) <==> a in Keys(row.oldValues))
      && (forall s | s in Keys(Get(g, a)) :: s == "new" || s == "old")
  {
    forall a
      ensures NamesAttribute(e, a) <==> a in Keys(row.newValues) || a in Keys(row.oldValues)
    {
      ModifiedNamesAttribute(row, e, a);
    }
    forall a, s
      ensures NamesPair(e, a, s) <==> (s == "new" && a in Keys(row.newValues)) || (s == "old" && a in Keys(row.oldValues))
    {
      ModifiedNamesPair(row, e, a, s);
    }
  }

  /** `getModified[a]['new']` is the value of the entry `new_<a>`, and
      `getModified[a]['old']` that of `old_<a>`. */
  lemma ModifiedValues(row: Columns, e: Dict<Value>)
    requires Keys(e) == ModifiedKeys(row)
    ensures forall a | a in Keys(row.newValues) ::
      "new_" + a in Keys(e) && HoldsAt(GroupByAttribute(e), a, "new", Get(e, "new_" + a))
    ensures forall a | a in Keys(row.oldValues) ::
      "old_" + a in Keys(e) && HoldsAt(GroupByAttribute(e), a, "old", Get(e, "old_" + a))
  {
    ModifiedPairsDistinct(row, e);
    GroupValues(e);
    ValuesFromEntries(row, e, GroupByAttribute(e));
  }

  lemma ValuesFromEntries(row: Columns, e: Dict<Value>, g: Dict<Dict<Value>>)
    requires Keys(e) == ModifiedKeys(row)
    requires forall j | 0 <= j < |e| :: HoldsAt(g, AttributeOf(e[j].0), StateOf(e[j].0), e[j].1)
    ensures forall a | a in Keys(row.newValues) :: "new_" + a in Keys(e) && HoldsAt(g, a, "new", Get(e, "new_" + a))
    ensures forall a | a in Keys(row.oldValues) :: "old_" + a in Keys(e) && HoldsAt(g, a, "old", Get(e, "old_" + a))
  {
    forall a | a in Keys(row.newValues)
      ensures "new_" + a in Keys(e) && HoldsAt(g, a, "new", Get(e, "new_" + a))
    {
      NewValueFromEntry(row, e, g, a);
    }
    forall a | a in Keys(row.oldValues)
      ensures "old_" + a in Keys(e) && HoldsAt(g, a, "old", Get(e, "old_" + a))
    {
      OldValueFromEntry(row, e, g, a);
    }
  }

  lemma NewValueFromEntry(row: Columns, e: Dict<Value>, g: Dict<Dict<Value>>, a: string)
    requires Keys(e) == ModifiedKeys(row) && a in Keys(row.newValues)
    requires forall j | 0 <= j < |e| :: HoldsAt(g, AttributeOf(e[j].0), StateOf(e[j].0), e[j].1)
    ensures "new_" + a in Keys(e) && HoldsAt(g, a, "new", Get(e, "new_" + a))
  {
    var i := IndexOf(row.newValues, a);
    KeysConcat(Prefixed("new_", row.newValues), Prefixed("old_", row.oldValues));
    assert i < |e|;
    ValueAtEntry(row, e, g, i);
  }

  lemma OldValueFromEntry(row: Columns, e: Dict<Value>, g: Dict<Dict<Value>>, a: string)
    requires Keys(e) == ModifiedKeys(row) && a in Keys(row.oldValues)
    requires forall j | 0 <= j < |e| :: HoldsAt(g, AttributeOf(e[j].0), StateOf(e[j].0), e[j].1)
    ensures "old_" + a in Keys(e) && HoldsAt(g, a, "old", Get(e, "old_" + a))
  {
    var i := IndexOf(row.oldValues, a);
    KeysConcat(Prefixed("new_", row.newValues), Prefixed("old_", row.oldValues));
    assert |row.newValues| + i < |e|;
    ValueAtEntry(row, e, g, |row.newValues| + i);
  }

  lemma ValueAtEntry(row: Columns, e: Dict<Value>, g: Dict<Dict<Value>>, j: nat)
    requires Keys(e) == ModifiedKeys(row) && j < |e|
    requires HoldsAt(g, AttributeOf(e[j].0), StateOf(e[j].0), e[j].1)
    ensures e[j].0 in Keys(e) && HoldsAt(g, AttributeOf(e[j].0), StateOf(e[j].0), Get(e, e[j].0))
    ensures var nv := row.newValues; var ov := row.oldValues;
      || (j < |nv| && e[j].0 == "new_" + nv[j].0 && AttributeOf(e[j].0) == nv[j].0 && StateOf(e[j].0) == "new")
      || (|nv| <= j && e[j].0 == "old_" + ov[j - |nv|].0 && AttributeOf(e[j].0) == ov[j - |nv|].0 && StateOf(e[j].0) == "old")
  {
    ModifiedEntryShape(row, e, j);
    GetAt(e, j);
  }

  // ---------------------------------------------------------------------------
  // Tags

  /** `getTags`: the non-empty comma-separated pieces of the TAGS column; a null
      column reads as the empty string. */
  function GetTags(tags: Option<string>): (r: seq<string>)
    ensures forall i | 0 <= i < |r| :: r[i] != "" && CommaFree(r[i])
    ensures tags.None? ==> r == []
    ensures tags.Some? ==> forall w :: w in r <==> w != "" && w in Explode(tags.value)
  {
    PregSplitNoEmpty(if tags.Some? then tags.value else "")
  }

  /** Tags stored as a comma-join of non-empty, comma-free words read back as
      those words, in order. */
  lemma TagsOfJoinedWords(ws: seq<string>)
    requires forall i | 0 <= i < |ws| :: ws[i] != "" && CommaFree(ws[i])
    ensures GetTags(Some(Implode(ws))) == ws
  {
    PregSplitOfImplode(ws);
  }

  /** Empty pieces are dropped: a column such as `"foo,,bar,"`, with an empty
      piece between two tags and one after the last, reads back as the two tags. */
  lemma TagsSkipEmptyPieces(a: string, b: string)
    requires a != "" && CommaFree(a) && b != "" && CommaFree(b)
    ensures GetTags(Some(a + ",," + b + ",")) == [a, b]
  {
    ExplodeWithEmptyPieces(a, b);
    NonEmptyConcat([a, ""], [b, ""]);
    assert [a, "", b, ""] == [a, ""] + [b, ""];
    WordThenEmpty(a);
    WordThenEmpty(b);
  }

  lemma WordThenEmpty(w: string)
    requires w != ""
    ensures NonEmpty([w, ""]) == [w]
  {
    assert [w, ""][1..] == [""];
    assert NonEmpty([""]) == [] by { assert [""][1..] == []; }
  }

  /** The pieces of `a,,b,`: both words, and an empty piece after each. */
  lemma ExplodeWithEmptyPieces(a: string, b: string)
    requires CommaFree(a) && CommaFree(b)
    ensures Explode(a + ",," + b + ",") == [a, "", b, ""]
  {
    var tail := b + "," + "";
    var mid := "" + "," + tail;
    assert a + ",," + b + "," == a + "," + mid;
    ExplodeAfterWord(a, mid);
    ExplodeAfterWord("", tail);
    ExplodeAfterWord(b, "");
    assert [a] + ([""] + ([b] + [""])) == [a, "", b, ""];
  }

  // ---------------------------------------------------------------------------
  // The audit object

  /** A stored audit being presented. The columns and the loaded relations do not
      change; `data`, `metadata` and `modified` start empty and are filled by
      `ResolveData`, which `GetMetadata` and `GetModified` run on first use. */
  class Audit {
    const row: Columns
    /** `$this->user`, when the user relation is loaded. */
    const user: Option<Model>
    /** `$this->AUDITABLE`, when the audited model is loaded. */
    const auditable: Option<Model>
    /** `serializeDate`, Eloquent's date formatting, left uninterpreted. */
    const serializeDate: Value -> Value

    var data: Dict<Value>
    var metadata: seq<string>
    var modified: seq<string>

    /** The state `ResolveData` leaves behind. */
    ghost predicate Resolved()
      reads this
    {
      && data == ResolvedData(row, user, serializeDate)
      && metadata == Keys(MetadataEntries(row, user, serializeDate))
      && modified == ModifiedKeys(row)
    }

    ghost predicate Valid()
      reads this
    {
      (data == [] && metadata == [] && modified == []) || Resolved()
    }

    constructor (row: Columns, user: Option<Model>, auditable: Option<Model>, serializeDate: Value -> Value)
      ensures this.row == row && this.user == user && this.auditable == auditable
      ensures this.serializeDate == serializeDate
      ensures data == [] && metadata == [] && modified == []
      ensures Valid()
    {
      this.row := row;
      this.user := user;
      this.auditable := auditable;
      this.serializeDate := serializeDate;
      data := [];
      metadata := [];
      modified := [];
    }

    /** `resolveData`: fills `data` with the metadata block, the user's attributes
        (when a user is loaded), then the new and the old values; `metadata` takes
        the keys present before the new values were added, and `modified` the
        keys after them, found positionally with `array_diff_key`. */
    method ResolveData() returns (r: Dict<Value>)
      modifies this
      ensures Resolved() && r == data
    {
      var d: Dict<Value> := MetadataBlock(row, serializeDate);
      MetadataEntriesShape(row, user, serializeDate);
      if user.Some? {
        var attributes := user.value.arrayable;
        for i := 0 to |attributes|
          modifies {}
          invariant d == MetadataBlock(row, serializeDate) + Prefixed("user_", attributes[..i])
        {
          PutPrefixedAppends(MetadataBlock(row, serializeDate), {'a', 'U'}, "user_", attributes, i, d);
          d := Put(d, "user_" + attributes[i].0, attributes[i].1);
        }
        assert attributes[..|attributes|] == attributes;
      }
      assert d == MetadataEntries(row, user, serializeDate);
      metadata := Keys(d);

      var meta: Dict<Value> := d;
      for i := 0 to |row.newValues|
        modifies {}
        invariant d == meta + Prefixed("new_", row.newValues[..i])
      {
        PutPrefixedAppends(meta, {'a', 'U', 'u'}, "new_", row.newValues, i, d);
        d := Put(d, "new_" + row.newValues[i].0, row.newValues[i].1);
      }
      assert row.newValues[..|row.newValues|] == row.newValues;

      var front: Dict<Value> := d;
      assert LeadsWith(Keys(front), {'a', 'U', 'u', 'n'}) by {
        PrefixedLeadsWith("new_", row.newValues);
        KeysConcat(meta, Prefixed("new_", row.newValues));
      }
      for i := 0 to |row.oldValues|
        modifies {}
        invariant d == front + Prefixed("old_", row.oldValues[..i])
      {
        PutPrefixedAppends(front, {'a', 'U', 'u', 'n'}, "old_", row.oldValues, i, d);
        d := Put(d, "old_" + row.oldValues[i].0, row.oldValues[i].1);
      }
      assert row.oldValues[..|row.oldValues|] == row.oldValues;

      assert d == ResolvedData(row, user, serializeDate);
      ModifiedKeysOfResolved(row, user, serializeDate);
      modified := ArrayDiffKey(Keys(d), metadata);
      data := d;
      r := d;
    }

    /** `getMetadata`: resolves the data only while it is empty, then presents the
        value of every metadata key, in order. A second call changes nothing and
        returns the same array. */
    method GetMetadata() returns (r: Dict<Value>)
      requires Valid()
      modifies this
      ensures Resolved()
      ensures old(Resolved()) ==> data == old(data) && metadata == old(metadata) && modified == old(modified)
      ensures Keys(r) == metadata
      ensures r == PresentedEntries(metadata, data, user, auditable, serializeDate)
    {
      ResolvedDataNonEmpty(row, user, serializeDate);
      if data == [] {
        var resolved := ResolveData();
      }
      var keys, d := metadata, data;
      MetadataEntriesShape(row, user, serializeDate);
      KeysDistinct(MetadataEntries(row, user, serializeDate));
      r := [];
      for i := 0 to |keys|
        modifies {}
        invariant r == PresentedEntries(keys[..i], d, user, auditable, serializeDate)
      {
        PresentedSnoc(keys, i, d, user, auditable, serializeDate, r);
        r := Put(r, keys[i], Present(GetDataValue(d, user, auditable, keys[i]), serializeDate));
      }
      assert keys[..|keys|] == keys;
    }

    /** `getModified`: resolves the data only while it is empty, then regroups the
        modified keys as attribute => [state => presented value]. */
    method GetModified() returns (r: Dict<Dict<Value>>)
      requires Valid()
      modifies this
      ensures Resolved()
      ensures old(Resolved()) ==> data == old(data) && metadata == old(metadata) && modified == old(modified)
      ensures r == GroupByAttribute(PresentedEntries(modified, data, user, auditable, serializeDate))
      ensures forall a :: a in Keys(r) <==> a in Keys(row.newValues) || a in Keys(row.oldValues)
      ensures forall a | a in Keys(r) ::
        && ("new" in Keys(Get(r, a)) <==> a in Keys(row.newValues))
        && ("old" in Keys(Get(r, a)) <==> a in Keys(row.oldValues))
      ensures forall a | a in Keys(row.newValues) ::
        HoldsAt(r, a, "new", Present(GetDataValue(data, user, auditable, "new_" + a), serializeDate))
      ensures forall a | a in Keys(row.oldValues) ::
        HoldsAt(r, a, "old", Present(GetDataValue(data, user, auditable, "old_" + a), serializeDate))
    {
      ResolvedDataNonEmpty(row, user, serializeDate);
      if data == [] {
        var resolved := ResolveData();
      }
      var keys, d := modified, data;
      ghost var entries := PresentedEntries(keys, d, user, auditable, serializeDate);
      r := [];
      for i := 0 to |keys|
        modifies {}
        invariant r == GroupByAttribute(entries[..i])
      {
        var value := Present(GetDataValue(d, user, auditable, keys[i]), serializeDate);
        GroupSnoc(entries, i);
        r := AddModified(r, keys[i], value);
      }
      assert entries[..|keys|] == entries;
      PresentedModified(row, d, user, auditable, serializeDate);
    }
  }

  lemma ResolvedDataNonEmpty(row: Columns, user: Option<Model>, serializeDate: Value -> Value)
    ensures |ResolvedData(row, user, serializeDate)| >= 10
  {
    MetadataEntriesShape(row, user, serializeDate);
    assert |MetadataBlock(row, serializeDate)| == 10;
  }

  lemma PresentedSnoc(keys: seq<string>, i: nat, data: Dict<Value>, user: Option<Model>, auditable: Option<Model>,
                      serializeDate: Value -> Value, r: Dict<Value>)
    requires Distinct(keys) && i < |keys|
    requires r == PresentedEntries(keys[..i], data, user, auditable, serializeDate)
    ensures var v := Present(GetDataValue(data, user, auditable, keys[i]), serializeDate);
      Put(r, keys[i], v) == PresentedEntries(keys[..i + 1], data, user, auditable, serializeDate)
  {
    assert Keys(r) == keys[..i];
    assert keys[i] !in keys[..i];
  }

  lemma GroupSnoc(e: seq<(string, Value)>, i: nat)
    requires i < |e|
    ensures GroupByAttribute(e[..i + 1]) == AddModified(GroupByAttribute(e[..i]), e[i].0, e[i].1)
  {
    assert e[..i + 1][..i] == e[..i];
  }

  /** What `getModified` returns on a resolved audit: its attributes are those of
      the new and the old values; under each, `new` is present exactly when the
      attribute has a new value and `old` exactly when it has an old one, each
      holding the presented value of `new_<a>` or `old_<a>`. */
  lemma PresentedModified(row: Columns, data: Dict<Value>, user: Option<Model>, auditable: Option<Model>,
                          serializeDate: Value -> Value)
    ensures var g := GroupByAttribute(PresentedEntries(ModifiedKeys(row), data, user, auditable, serializeDate));
      && (forall a :: a in Keys(g) <==> a in Keys(row.newValues) || a in Keys(row.oldValues))
      && (forall a | a in Keys(g) ::
            && ("new" in Keys(Get(g, a)) <==> a in Keys(row.newValues))
            && ("old" in Keys(Get(g, a)) <==> a in Keys(row.oldValues)))
      && (forall a | a in Keys(row.newValues) ::
            HoldsAt(g, a, "new", Present(GetDataValue(data, user, auditable, "new_" + a), serializeDate)))
      && (forall a | a in Keys(row.oldValues) ::
            HoldsAt(g, a, "old", Present(GetDataValue(data, user, auditable, "old_" + a), serializeDate)))
  {
    var entries := PresentedEntries(ModifiedKeys(row), data, user, auditable, serializeDate);
    PresentedModifiedEntries(row, entries, data, user, auditable, serializeDate);
    var e: Dict<Value> := entries;
    ModifiedShape(row, e);
    ModifiedValues(row, e);
    forall a | a in Keys(row.newValues)
      ensures Get(e, "new_" + a) == Present(GetDataValue(data, user, auditable, "new_" + a), serializeDate)
    {
      GetAt(e, IndexOf(e, "new_" + a));
    }
    forall a | a in Keys(row.oldValues)
      ensures Get(e, "old_" + a) == Present(GetDataValue(data, user, auditable, "old_" + a), serializeDate)
    {
      GetAt(e, IndexOf(e, "old_" + a));
    }
  }

  /** The presented modified entries form an array keyed by the modified keys,
      each holding the presented value of its key. */
  lemma PresentedModifiedEntries(row: Columns, entries: seq<(string, Value)>, data: Dict<Value>, user: Option<Model>,
                                 auditable: Option<Model>, serializeDate: Value -> Value)
    requires entries == PresentedEntries(ModifiedKeys(row), data, user, auditable, serializeDate)
    ensures DistinctKeys(entries) && Keys(entries) == ModifiedKeys(row)
    ensures forall j | 0 <= j < |entries| :: entries[j].1 == Present(GetDataValue(data, user, auditable, entries[j].0), serializeDate)
  {
    assert Keys(entries) == ModifiedKeys(row);
    MetadataModifiedPartition(row, user, serializeDate);
    KeysDistinct(ResolvedData(row, user, serializeDate));
    KeysConcat(Prefixed("new_", row.newValues), Prefixed("old_", row.oldValues));
    PrefixedDistinct("new_", row.newValues);
    PrefixedDistinct("old_", row.oldValues);
    PrefixedLeadsWith("new_", row.newValues);
    PrefixedLeadsWith("old_", row.oldValues);
    LeadsWithApart(Keys(Prefixed("new_", row.newValues)), Keys(Prefixed("old_", row.oldValues)), {'n'}, {'o'});
    DistinctKeysConcat(Prefixed("new_", row.newValues), Prefixed("old_", row.oldValues));
    assert forall j | 0 <= j < |entries| :: entries[j].0 == ModifiedKeys(row)[j];
  }
}
