/**
 * The plugin's options store: a fixed table of defaults, the live option
 * table (stored values merged over the defaults) and the persisted
 * WordPress option that first-run seeding writes.
 */
module AbOptions {
  import opened PhpValues

  const OPTION_NAME := "mint_ab_testing_options"
  const COOKIE_NAME := "mint_alternate_theme"
  const REFERRER_COOKIE_NAME := "mint_ab_referrer"

  /** The default entry points, in the order the table lists them. */
  function DefaultEntrypoints(): seq<(string, Value)>
  {
    [("home", Bool(true)), ("singular", Bool(true)), ("archive", Bool(true)),
     ("search", Bool(true)), ("404", Bool(true))]
  }

  /** The table of defaults as the PHP array literal lists it. */
  function DefaultEntries(): seq<(string, Value)>
  {
    [("enable", Str("no")), ("ratio", Int(50)), ("alternate_theme", Str("Twenty Ten")),
     ("cookie_ttl", Int(0)), ("endpoint", Str("v02")), ("entrypoints", Arr(DefaultEntrypoints()))]
  }

  /** Entry `i` is the last one in `es` with its key. */
  ghost predicate LastWithKey(es: seq<(string, Value)>, i: int)
    requires 0 <= i < |es|
  {
    forall j :: i < j < |es| ==> es[j].0 != es[i].0
  }

  /** The keys of a PHP array. */
  ghost function KeysOf(es: seq<(string, Value)>): set<string>
  {
    set i | 0 <= i < |es| :: es[i].0
  }

  /** A PHP array read as a key-value table: the keys of the table are the
      keys of the array, each with the value of its last entry. */
  function ToMap(es: seq<(string, Value)>): (m: map<string, Value>)
    ensures m.Keys == KeysOf(es)
    ensures forall i :: 0 <= i < |es| && LastWithKey(es, i) ==> m[es[i].0] == es[i].1
    decreases |es|
  {
    if es == [] then map[]
    else
      var rest := ToMap(es[..|es| - 1]);
      ToMapStep(es[..|es| - 1], es[|es| - 1], rest);
      assert es == es[..|es| - 1] + [es[|es| - 1]];
      rest[es[|es| - 1].0 := es[|es| - 1].1]
  }

  /** One step of `ToMap`: adding the last entry to the table of the others. */
  lemma ToMapStep(init: seq<(string, Value)>, last: (string, Value), rest: map<string, Value>)
    requires rest.Keys == KeysOf(init)
    requires forall i :: 0 <= i < |init| && LastWithKey(init, i) ==> rest[init[i].0] == init[i].1
    ensures var es := init + [last]; var m := rest[last.0 := last.1];
      && m.Keys == KeysOf(es)
      && forall i :: 0 <= i < |es| && LastWithKey(es, i) ==> m[es[i].0] == es[i].1
  {
    var es := init + [last];
    var m := rest[last.0 := last.1];
    assert forall i :: 0 <= i < |init| ==> init[i] == es[i];
    assert KeysOf(es) == KeysOf(init) + {last.0} by {
      forall k | k in KeysOf(es) ensures k in KeysOf(init) + {last.0} {
        var i :| 0 <= i < |es| && es[i].0 == k;
        if i < |init| { assert init[i].0 == k; }
      }
      forall k | k in KeysOf(init) ensures k in KeysOf(es) {
        var i :| 0 <= i < |init| && init[i].0 == k;
        assert es[i].0 == k;
      }
      assert es[|es| - 1].0 == last.0;
    }
    forall i | 0 <= i < |es| && LastWithKey(es, i) ensures m[es[i].0] == es[i].1 {
      if i < |es| - 1 {
        assert es[|es| - 1].0 != es[i].0;
        assert LastWithKey(init, i) by {
          forall j | i < j < |init| ensures init[j].0 != init[i].0 {
            assert init[j] == es[j];
          }
        }
        assert rest[init[i].0] == init[i].1;
      }
    }
  }

  /** The defaults as a table. */
  function Defaults(): map<string, Value>
  {
    ToMap(DefaultEntries())
  }

  /** The defaults table holds exactly the documented values. */
  lemma DefaultsTable()
    ensures Defaults() == map[
      "enable" := Str("no"), "ratio" := Int(50), "alternate_theme" := Str("Twenty Ten"),
      "cookie_ttl" := Int(0), "endpoint" := Str("v02"),
      "entrypoints" := Arr([("home", Bool(true)), ("singular", Bool(true)), ("archive", Bool(true)),
                            ("search", Bool(true)), ("404", Bool(true))])]
  {
    var es := DefaultEntries();
    assert es[..0] == [];
    ToMapPrefixStep(es, 0);
    ToMapPrefixStep(es, 1);
    ToMapPrefixStep(es, 2);
    ToMapPrefixStep(es, 3);
    ToMapPrefixStep(es, 4);
    ToMapPrefixStep(es, 5);
    assert es[..6] == es;
  }

  /** `ToMap` of a prefix one entry longer. */
  lemma ToMapPrefixStep(es: seq<(string, Value)>, k: int)
    requires 0 <= k < |es|
    ensures ToMap(es[..k + 1]) == ToMap(es[..k])[es[k].0 := es[k].1]
  {
    assert es[..k + 1][..k] == es[..k];
  }

  /** WordPress `wp_parse_args(args, defaults)` for the array case: the stored
      entries override the defaults key by key (a shallow merge). */
  function ParseArgs(args: Value, defaults: map<string, Value>): map<string, Value>
  {
    match args
    case Arr(es) => defaults + ToMap(es)
    case _ => defaults
  }

  /** The live option table `_setup_options` computes from the stored option. */
  function Merged(stored: Value): map<string, Value>
  {
    if !Truthy(stored) then Defaults() else ParseArgs(stored, Defaults())
  }

  /** The persisted option after `_setup_options`: seeded with the defaults when
      the stored value is empty or falsy, untouched otherwise. */
  function PersistedAfterSetup(stored: Value): Value
  {
    if !Truthy(stored) then Arr(DefaultEntries()) else stored
  }

  /** No (or a falsy) stored option: the live table is the defaults table, and
      the defaults are what gets written to storage. */
  lemma SetupSeedsDefaults(stored: Value)
    requires !Truthy(stored)
    ensures Merged(stored) == Defaults()
    ensures PersistedAfterSetup(stored) == Arr(DefaultEntries())
    ensures ToMap(PersistedAfterSetup(stored).entries) == Merged(stored)
  {
  }

  /** Stored options are merged shallowly: a stored key wins, a missing key
      falls back to its default, extra stored keys are kept, and a stored
      `entrypoints` replaces the default array as a whole. */
  lemma {:induction false} SetupMergesStored(es: seq<(string, Value)>, k: string)
    requires |es| > 0
    ensures var m := Merged(Arr(es));
      && m.Keys == Defaults().Keys + KeysOf(es)
      && (forall i :: 0 <= i < |es| && LastWithKey(es, i) ==> m[es[i].0] == es[i].1)
      && ((forall i :: 0 <= i < |es| ==> es[i].0 != k) && k in Defaults() ==> m[k] == Defaults()[k])
      && (forall i :: 0 <= i < |es| && es[i].0 == "entrypoints" && LastWithKey(es, i) ==>
            m["entrypoints"] == es[i].1)
  {
    var m := Merged(Arr(es));
    assert m == Defaults() + ToMap(es);
  }

  /** `isset($this->_options[$key]) ? $this->_options[$key] : null`. */
  function Lookup(options: map<string, Value>, key: string): (r: Value)
    ensures key !in options ==> r == Null
    ensures key in options ==> r == options[key]
  {
    if key in options && options[key] != Null then options[key] else Null
  }

  class Options {
    /** `_options`: the merged defaults and stored values. */
    var options: map<string, Value>
    /** The persisted WordPress option `mint_ab_testing_options`. */
    var stored: Value

    /** Reads the persisted option and sets up the live table. */
    constructor (persisted: Value)
      ensures options == Merged(persisted)
      ensures stored == PersistedAfterSetup(persisted)
    {
      stored := persisted;
      options := map[];
      new;
      SetupOptions();
    }

    /** `_setup_options`. */
    method SetupOptions()
      modifies this
      ensures options == Merged(old(stored))
      ensures stored == PersistedAfterSetup(old(stored))
    {
      var storedOptions := stored;
      if !Truthy(storedOptions) {
        stored := Arr(DefaultEntries());
        options := Defaults();
      } else {
        options := ParseArgs(storedOptions, Defaults());
      }
    }

    /** `get_option`: the value of a key that is set and not null, else null. */
    function GetOption(key: string): (r: Value)
      reads this
      ensures key !in options ==> r == Null
      ensures key in options ==> r == options[key]
    {
      Lookup(options, key)
    }

    /** `get_option_default`: reads the defaults table only; it reads no
        field, so neither the stored option nor `SetOption` can affect it. */
    function GetOptionDefault(key: string): (r: Value)
      ensures key in Defaults() ==> r == Defaults()[key]
      ensures key !in Defaults() ==> r == Null
    {
      Lookup(Defaults(), key)
    }

    /** `set_option`: replaces one key of the live table; the persisted option
        is not written. */
    method SetOption(key: string, value: Value)
      modifies this`options
      ensures options == old(options)[key := value]
      ensures value != Null ==> GetOption(key) == value
      ensures forall k :: k != key ==> GetOption(k) == old(GetOption(k))
    {
      options := options[key := value];
    }
  }

  /** The static `$_instance` slot of `Options::instance()`. */
  class Registry {
    var instance: Options?

    constructor ()
      ensures instance == null
    {
      instance := null;
    }

    /** `instance()`: creates (and so sets up) the options object on the first
        call only; every later call returns that same object. */
    method Instance(persisted: Value) returns (o: Options)
      modifies this
      ensures instance == o
      ensures old(instance) != null ==> o == old(instance)
      ensures old(instance) == null ==>
        fresh(o) && o.options == Merged(persisted) && o.stored == PersistedAfterSetup(persisted)
    {
      if instance == null {
        instance := new Options(persisted);
      }
      o := instance;
    }
  }
}
