/**
 * The precedence rule of the program's entry point: values read from the
 * configuration file fill in only those arguments the command line left at
 * `None`, and the unicode switch is then derived from the `ascii` argument.
 * The parsed arguments are a record of instance attributes; absent and `None`
 * attributes read alike through `getattr(args, key, None)`.
 */
module ConfigMerge {
  import opened Wrappers

  /** An argument value: a string option or a `store_true` switch. */
  datatype Value = Text(text: string) | Switch(on: bool)

  /** An argument namespace: attribute name to value, where `None` is an attribute holding `None`. */
  type Record = map<string, Option<Value>>

  /** What reading an attribute can raise. */
  datatype MainError = AttributeError(name: string)

  /** `getattr(args, key, None)` over the instance attributes: a missing attribute reads as `None`. */
  function GetAttr(args: Record, key: string): Option<Value> {
    if key in args then args[key] else None
  }

  /** Python truthiness of an attribute value. */
  predicate Truthy(v: Option<Value>) {
    match v
    case None => false
    case Some(Text(s)) => s != ""
    case Some(Switch(b)) => b
  }

  /** The attributes `parse_command_line` defines; `--ascii` is `store_true`, so it always holds a switch. */
  const CommandLineKeys: set<string> := {"subreddit", "link", "ascii", "log", "config", "username", "password"}

  predicate ParsedCommandLine(args: Record) {
    && args.Keys == CommandLineKeys
    && GetAttr(args, "ascii").Some? && GetAttr(args, "ascii").value.Switch?
  }

  /** The value attribute `key` holds once the configuration file has been applied. */
  function MergedAttr(args: Record, local: map<string, Value>, key: string): Option<Value>
    requires key in args || key in local
  {
    if key in local && GetAttr(args, key).None? then Some(local[key]) else args[key]
  }

  /** The record after the configuration file has been applied, key by key. */
  function Merged(args: Record, local: map<string, Value>): (r: Record)
    ensures r.Keys == args.Keys + local.Keys
  {
    map key | key in args.Keys + local.Keys :: MergedAttr(args, local, key)
  }

  /** A configuration value fills every attribute the command line left at `None` or did not define. */
  lemma MergeFills(args: Record, local: map<string, Value>, key: string)
    requires key in local && GetAttr(args, key).None?
    ensures GetAttr(Merged(args, local), key) == Some(local[key])
  {
  }

  /** An attribute given on the command line is never overwritten by the configuration file. */
  lemma MergeKeepsCommandLine(args: Record, local: map<string, Value>, key: string)
    requires GetAttr(args, key).Some?
    ensures key in Merged(args, local) && Merged(args, local)[key] == args[key]
  {
  }

  /** Attributes the configuration file does not name are left as they were, and none is added. */
  lemma MergeUnrelated(args: Record, local: map<string, Value>, key: string)
    requires key !in local
    ensures key in Merged(args, local) <==> key in args
    ensures key in args ==> Merged(args, local)[key] == args[key]
  {
  }

  /** Applying the configuration file a second time changes nothing. */
  lemma MergeIdempotent(args: Record, local: map<string, Value>)
    ensures Merged(Merged(args, local), local) == Merged(args, local)
  {
  }

  /**
   * Applying one more configuration key is one conditional `setattr` on the
   * record built so far, whichever key comes next: the loop reaches the same
   * record in any iteration order.
   */
  lemma MergeInSteps(args: Record, local: map<string, Value>, done: set<string>, key: string)
    requires key in local && key !in done
    ensures var before := Merged(args, map k | k in local && k in done :: local[k]);
            Merged(args, map k | k in local && (k in done || k == key) :: local[k])
              == if GetAttr(before, key).None? then before[key := Some(local[key])] else before
  {
  }

  /**
   * `--ascii` is a `store_true` switch and so never `None`: a configuration
   * value for `ascii` is never applied, and the unicode switch reflects only
   * the command line.
   */
  lemma AsciiFromCommandLine(args: Record, local: map<string, Value>)
    requires ParsedCommandLine(args)
    ensures Merged(args, local)["ascii"] == args["ascii"]
    ensures UnicodeFlag(Merged(args, local)) == Success(!args["ascii"].value.on)
  {
  }

  /** `not args.ascii`, which raises `AttributeError` when the record has no `ascii` attribute. */
  function UnicodeFlag(args: Record): (r: Result<bool, MainError>)
    ensures r.Failure? <==> "ascii" !in args
    ensures r.Failure? ==> r.error == AttributeError("ascii")
  {
    if "ascii" in args then Success(!Truthy(args["ascii"])) else Failure(AttributeError("ascii"))
  }

  /** The `unicode` setting of the configuration module. */
  class Settings {
    var unicode: bool

    constructor(unicode: bool)
      ensures this.unicode == unicode
    {
      this.unicode := unicode;
    }
  }

  /** The argument namespace `parse_command_line` returns, updated in place by `setattr`. */
  class Namespace {
    var attrs: Record

    constructor(attrs: Record)
      ensures this.attrs == attrs
    {
      this.attrs := attrs;
    }

    /** `getattr(self, key, None)`. */
    function Get(key: string): Option<Value>
      reads this
    {
      GetAttr(attrs, key)
    }

    /** `setattr(self, key, val)`. */
    method Set(key: string, val: Value)
      modifies this
      ensures attrs == old(attrs)[key := Some(val)]
    {
      attrs := attrs[key := Some(val)];
    }

    /** The loop over the configuration file's items: each one fills its attribute only when that reads as `None`. */
    method FillFromConfig(local: map<string, Value>)
      modifies this
      ensures attrs == Merged(old(attrs), local)
    {
      ghost var original := attrs;
      var pending := local.Keys;
      ghost var done: set<string> := {};
      assert (map k | k in local && k in done :: local[k]) == map[];
      assert Merged(original, map[]) == original;
      while pending != {}
        invariant pending == local.Keys - done
        invariant done <= local.Keys
        invariant attrs == Merged(original, map k | k in local && k in done :: local[k])
        decreases pending
      {
        var key :| key in pending;
        MergeInSteps(original, local, done, key);
        if Get(key).None? {
          Set(key, local[key]);
        }
        pending := pending - {key};
        done := done + {key};
      }
      assert (map k | k in local && k in done :: local[k]) == local;
    }
  }

  /**
   * The entry point's use of the configuration file: it fills the arguments,
   * and the unicode setting then becomes `not args.ascii`.
   */
  method ApplyConfigFile(args: Namespace, settings: Settings, local: map<string, Value>)
    returns (r: Result<bool, MainError>)
    modifies args, settings
    ensures args.attrs == Merged(old(args.attrs), local)
    ensures r == UnicodeFlag(args.attrs)
    ensures r.Success? ==> settings.unicode == r.value
    ensures r.Failure? ==> settings.unicode == old(settings.unicode)
  {
    args.FillFromConfig(local);
    r := UnicodeFlag(args.attrs);
    if r.Success? {
      settings.unicode := r.value;
    }
  }
}
