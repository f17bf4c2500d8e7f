/**
 * The CSS-variable name registry of `createCssVar`: per-registry settings,
 * a lazily filled table from logical key to numeric id, and the
 * process-wide defaults and id counter that every registry shares.
 */
module CssVar {
  import opened Wrappers
  import opened Decimal
  import Fallbacks

  /** The process-wide defaults (`config`), which any caller may overwrite. */
  class Config {
    var defaultPrefix: string
    var defaultMinify: bool

    constructor ()
      ensures defaultPrefix == "" && defaultMinify
    {
      defaultPrefix := "";
      defaultMinify := true;
    }
  }

  /** The process-wide id counter (`globalIdCounter`), shared by all registries. */
  class IdCounter {
    var value: nat

    constructor ()
      ensures value == 0
    {
      value := 0;
    }
  }

  /** What `createCssVar` is given; `None` is an absent or nullish option. */
  datatype Options = Options(prefix: Option<string>, minify: Option<bool>)

  datatype Settings = Settings(prefix: string, minify: bool)

  /** A value written through the settings view; the fields are typed as in `CssVarSettings`. */
  datatype Value = Text(text: string) | Flag(flag: bool)

  /** The error a write through the ref or decl view raises. */
  datatype ViewError = SetterNotSupported(propName: string) {
    function Message(): string
    {
      "Setter `" + propName + "` is not supported."
    }
  }

  predicate IsSettingsField(field: string) {
    field == "prefix" || field == "minify"
  }

  /** The value stored for a known field has that field's type. */
  predicate ValueFits(field: string, value: Option<Value>) {
    match value
    case None => true
    case Some(v) => (field == "prefix" ==> v.Text?) && (field == "minify" ==> v.Flag?)
  }

  /** The current value of a known field (`settings[propName]`). */
  function Get(s: Settings, field: string): Value
    requires IsSettingsField(field)
  {
    if field == "prefix" then Text(s.prefix) else Flag(s.minify)
  }

  /** The body of a declaration name, before the id: `v` when minified, else `{key}-`. */
  function NameBody(minify: bool, key: string): (b: string)
    ensures |b| > 0 && !IsDigit(b[|b| - 1])
    ensures minify ==> b == "v"
    ensures !minify ==> b == key + "-"
  {
    if minify then "v" else key + "-"
  }

  /** The sigil and optional prefix: `--{prefix}-` when the prefix is non-empty, else `--`. */
  function NameHead(prefix: string): (h: string)
    ensures |h| >= 2 && h[..2] == "--"
    ensures |prefix| == 0 ==> h == "--"
    ensures |prefix| > 0 ==> h == "--" + prefix + "-"
  {
    if |prefix| > 0 then "--" + prefix + "-" else "--"
  }

  /** The declaration name of `key` with allocated id `id` under settings `s`. */
  function DeclName(s: Settings, key: string, id: nat): (name: string)
    ensures |name| > 2 && name[..2] == "--"
    ensures IsDigit(name[|name| - 1])
  {
    var d := NatToString(id);
    var name := NameHead(s.prefix) + NameBody(s.minify, key) + d;
    assert name[|name| - 1] == d[|d| - 1];
    name
  }

  /** The reference expression wrapping a declaration name. */
  function RefName(s: Settings, key: string, id: nat): string
  {
    "var(" + DeclName(s, key, id) + ")"
  }

  /** The id a declaration name carries is its trailing digit run, whatever the settings and key. */
  lemma DeclNameCarriesId(s: Settings, key: string, id: nat)
    ensures TrailingDigits(DeclName(s, key, id)) == NatToString(id)
    ensures ParseDecimal(TrailingDigits(DeclName(s, key, id))) == id
  {
    var stem := NameHead(s.prefix) + NameBody(s.minify, key);
    assert stem[|stem| - 1] == NameBody(s.minify, key)[|NameBody(s.minify, key)| - 1];
    TrailingDigitsAfter(stem, NatToString(id));
    ParseNatToString(id);
  }

  /** Equal declaration names carry equal ids, even under different settings or keys. */
  lemma DeclNameDeterminesId(s1: Settings, k1: string, id1: nat, s2: Settings, k2: string, id2: nat)
    requires DeclName(s1, k1, id1) == DeclName(s2, k2, id2)
    ensures id1 == id2
  {
    DeclNameCarriesId(s1, k1, id1);
    DeclNameCarriesId(s2, k2, id2);
  }

  /** Unminified names determine both key and id. */
  lemma UnminifiedNameDeterminesKey(s: Settings, k1: string, id1: nat, k2: string, id2: nat)
    requires !s.minify
    requires DeclName(s, k1, id1) == DeclName(s, k2, id2)
    ensures k1 == k2 && id1 == id2
  {
    DeclNameDeterminesId(s, k1, id1, s, k2, id2);
    var d1 := NatToString(id1);
    var h := NameHead(s.prefix);
    assert DeclName(s, k1, id1) == h + (k1 + "-") + d1;
    assert DeclName(s, k2, id2) == h + (k2 + "-") + d1;
    Cancel(h, k1 + "-", k2 + "-", d1);
    assert k1 == (k1 + "-")[..|k1|];
    assert k2 == (k2 + "-")[..|k2|];
  }

  lemma Cancel(head: string, x: string, y: string, tail: string)
    requires head + x + tail == head + y + tail
    ensures x == y
  {
    var n := head + x + tail;
    assert |x| == |y|;
    assert x == n[|head|..|head| + |x|];
    assert y == (head + y + tail)[|head|..|head| + |y|];
  }

  /** A minified name is `--{prefix}-v{id}` (or `--v{id}`) and does not depend on the key. */
  lemma MinifiedNameIgnoresKey(s: Settings, k1: string, k2: string, id: nat)
    requires s.minify
    ensures DeclName(s, k1, id) == DeclName(s, k2, id)
    ensures DeclName(s, k1, id) == NameHead(s.prefix) + "v" + NatToString(id)
  {
  }

  /** A reference is closed by exactly one `)`; stripping it leaves `var(` and the declaration name. */
  lemma RefNameClosing(s: Settings, key: string, id: nat)
    ensures Fallbacks.TrailingCloseCount(RefName(s, key, id)) == 1
    ensures Fallbacks.Stripped(RefName(s, key, id)) == "var(" + DeclName(s, key, id)
  {
    var d := DeclName(s, key, id);
    var pre := "var(" + d;
    assert RefName(s, key, id) == pre + Fallbacks.Closers(1);
    assert pre[|pre| - 1] == d[|d| - 1];
    Fallbacks.TrailingCloseAfter(pre, 1);
  }

  /** Two references composed as fallbacks nest the second inside the first. */
  lemma RefNamesCompose(s1: Settings, k1: string, id1: nat, s2: Settings, k2: string, id2: nat)
    ensures Fallbacks.Fallbacks(RefName(s1, k1, id1), [RefName(s2, k2, id2)])
         == "var(" + DeclName(s1, k1, id1) + ",var(" + DeclName(s2, k2, id2) + "))"
  {
    Fallbacks.FallbacksOfTwoReferences(DeclName(s1, k1, id1), DeclName(s2, k2, id2));
  }

  /**
   * One registry: its settings, its table from key to id, and the shared
   * defaults and counter it was created with.
   */
  class Registry {
    const config: Config
    const counter: IdCounter
    var settings: Settings
    var idMap: map<string, nat>

    /** Every stored id is positive, already issued by the counter, and used by one key only. */
    ghost predicate Valid()
      reads this, counter
    {
      && (forall k :: k in idMap ==> 0 < idMap[k] <= counter.value)
      && (forall k1, k2 :: k1 in idMap && k2 in idMap && k1 != k2 ==> idMap[k1] != idMap[k2])
    }

    /** `createCssVar(options)`: each option, when absent, takes the current default. */
    constructor (config: Config, counter: IdCounter, options: Options)
      ensures this.config == config && this.counter == counter
      ensures settings.prefix == options.prefix.GetOr(config.defaultPrefix)
      ensures settings.minify == options.minify.GetOr(config.defaultMinify)
      ensures idMap == map[]
      ensures Valid()
    {
      this.config := config;
      this.counter := counter;
      settings := Settings(options.prefix.GetOr(config.defaultPrefix),
                           options.minify.GetOr(config.defaultMinify));
      idMap := map[];
    }

    /**
     * `decl(key)`: allocates the next id on the key's first access, then
     * renders the name from the current settings and the stored id.
     */
    method Decl(key: string) returns (name: string)
      requires Valid()
      modifies this`idMap, counter
      ensures Valid()
      ensures key in idMap
      ensures old(key in idMap) ==> idMap == old(idMap) && counter.value == old(counter.value)
      ensures old(key !in idMap) ==>
                && counter.value == old(counter.value) + 1
                && idMap == old(idMap)[key := counter.value]
                && (forall k :: k in old(idMap) ==> old(idMap)[k] < idMap[key])
      ensures name == DeclName(settings, key, idMap[key])
    {
      var id: nat;
      if key in idMap {
        id := idMap[key];
      } else {
        counter.value := counter.value + 1;
        id := counter.value;
        idMap := idMap[key := id];
      }
      name := DeclName(settings, key, id);
    }

    /** `ref(key)`: `var(` + `decl(key)` + `)`, with the same allocation. */
    method Ref(key: string) returns (r: string)
      requires Valid()
      modifies this`idMap, counter
      ensures Valid()
      ensures key in idMap
      ensures old(key in idMap) ==> idMap == old(idMap) && counter.value == old(counter.value)
      ensures old(key !in idMap) ==>
                && counter.value == old(counter.value) + 1
                && idMap == old(idMap)[key := counter.value]
                && (forall k :: k in old(idMap) ==> old(idMap)[k] < idMap[key])
      ensures r == "var(" + DeclName(settings, key, idMap[key]) + ")"
    {
      var d := Decl(key);
      r := "var(" + d + ")";
    }

    /**
     * The settings view's `set`: rejects unknown fields, replaces an absent
     * value by the current default, and assigns only the named field.
     */
    method TrySet(field: string, value: Option<Value>) returns (ok: bool)
      requires ValueFits(field, value)
      modifies this`settings
      ensures old(Valid()) ==> Valid()
      ensures ok == IsSettingsField(field)
      ensures !ok ==> settings == old(settings)
      ensures field == "prefix" ==>
                settings == old(settings).(prefix := if value.Some? then value.value.text else config.defaultPrefix)
      ensures field == "minify" ==>
                settings == old(settings).(minify := if value.Some? then value.value.flag else config.defaultMinify)
    {
      if !IsSettingsField(field) {
        return false;
      }
      var newValue := match value
        case Some(v) => v
        case None => if field == "prefix" then Text(config.defaultPrefix) else Flag(config.defaultMinify);
      if Get(settings, field) == newValue {
        return true;
      }
      if field == "prefix" {
        settings := settings.(prefix := newValue.text);
      } else {
        settings := settings.(minify := newValue.flag);
      }
      return true;
    }

    /**
     * `setReadonlyHandler`, the setter of both the ref and the decl view:
     * any assignment fails and changes nothing.
     */
    method SetReadonly(propName: string, newValue: string) returns (r: Result<(), ViewError>)
      ensures r == Failure(SetterNotSupported(propName))
      ensures r.error.Message() == "Setter `" + propName + "` is not supported."
    {
      r := Failure(SetterNotSupported(propName));
    }
  }

  /** Within one registry, different keys never share a declaration name. */
  lemma NamesDistinctWithin(r: Registry, k1: string, k2: string)
    requires r.Valid()
    requires k1 in r.idMap && k2 in r.idMap && k1 != k2
    ensures DeclName(r.settings, k1, r.idMap[k1]) != DeclName(r.settings, k2, r.idMap[k2])
  {
    if DeclName(r.settings, k1, r.idMap[k1]) == DeclName(r.settings, k2, r.idMap[k2]) {
      DeclNameDeterminesId(r.settings, k1, r.idMap[k1], r.settings, k2, r.idMap[k2]);
    }
  }

  /**
   * `decl(kb)` on registry `b` while another registry `a` shares its counter:
   * a first access gives `kb` an id larger than every id `a` holds, so its
   * name differs from every name of `a`, whatever the two settings are.
   */
  method DeclAcross(a: Registry, b: Registry, kb: string) returns (nb: string)
    requires a != b && a.counter == b.counter
    requires a.Valid() && b.Valid()
    modifies b`idMap, b.counter
    ensures a.Valid() && b.Valid()
    ensures a.idMap == old(a.idMap) && a.settings == old(a.settings)
    ensures kb in b.idMap && nb == DeclName(b.settings, kb, b.idMap[kb])
    ensures old(kb !in b.idMap) ==> forall k :: k in a.idMap ==> a.idMap[k] < b.idMap[kb]
    ensures old(kb !in b.idMap) ==> forall k :: k in a.idMap ==> DeclName(a.settings, k, a.idMap[k]) != nb
  {
    nb := b.Decl(kb);
    if kb !in old(b.idMap) {
      forall k | k in a.idMap
        ensures DeclName(a.settings, k, a.idMap[k]) != nb
      {
        if DeclName(a.settings, k, a.idMap[k]) == nb {
          DeclNameDeterminesId(a.settings, k, a.idMap[k], b.settings, kb, b.idMap[kb]);
        }
      }
    }
  }

  /**
   * Two new registries sharing one counter: whatever their settings, the key
   * `b` allocates after `a` carries a larger id in its name, so the two
   * names never clash.
   */
  method SharedCounterNamesDiffer(config: Config, counter: IdCounter, oa: Options, ob: Options, ka: string, kb: string)
      returns (na: string, nb: string)
    modifies counter
    ensures ParseDecimal(TrailingDigits(na)) < ParseDecimal(TrailingDigits(nb))
    ensures na != nb
  {
    var a := new Registry(config, counter, oa);
    var b := new Registry(config, counter, ob);
    na := a.Decl(ka);
    nb := DeclAcross(a, b, kb);
    DeclNameCarriesId(a.settings, ka, a.idMap[ka]);
    DeclNameCarriesId(b.settings, kb, b.idMap[kb]);
  }

  /**
   * Asking twice gives the same name; changing the prefix keeps the key's id
   * but changes how the name is rendered.
   */
  method StableThenRenamed(r: Registry, key: string, prefix: string)
      returns (first: string, second: string, renamed: string)
    requires r.Valid()
    modifies r, r.counter
    ensures first == second
    ensures key in r.idMap && r.settings == old(r.settings).(prefix := prefix)
    ensures first == DeclName(old(r.settings), key, r.idMap[key])
    ensures renamed == DeclName(r.settings, key, r.idMap[key])
  {
    first := r.Decl(key);
    ghost var id := r.idMap[key];
    second := r.Decl(key);
    var ok := r.TrySet("prefix", Some(Text(prefix)));
    renamed := r.Decl(key);
    assert r.idMap[key] == id;
  }
}
