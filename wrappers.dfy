/** The `nanomsg_wrappers` package: which backend module `nanomsg` loads.
    The interpreter name and what importing each module does are parameters;
    a loaded module is represented by its name. */
module NanomsgWrappers {
  import opened Common
  import opened PyStr

  /** Every backend module is named `_nanomsg_<wrapper>`. */
  const Prefix: string := "_nanomsg_"

  /** The module-level `_choice`, which starts out as `None`. */
  class Choice {
    var choice: Option<string>

    constructor ()
      ensures choice == None
    {
      choice := None;
    }

    /** `set_wrapper_choice(name)`: the new choice does not depend on any
        earlier one, so the last call wins. */
    method SetWrapperChoice(name: Option<string>)
      modifies this
      ensures choice == name
    {
      choice := name;
    }
  }

  /** `get_default_for_platform()` for the interpreter `python_implementation()` names. */
  function DefaultForPlatform(implementation: string): (name: string)
    ensures name == "cpy" <==> implementation == "CPython"
    ensures name == "cpy" || name == "ctypes"
  {
    if implementation == "CPython" then "cpy" else "ctypes"
  }

  /** What importing a module does: it loads; it is not found (`ImportError`);
      or its own initialisation raises something else, as `_nanomsg_ctypes`
      raises `OSError` from `ctypes.cdll.LoadLibrary` when the native library
      is missing. */
  datatype ImportOutcome = Imported | NotFound | InitFails

  /** `importlib.import_module(name)`, with `outcome` saying what importing
      each module does. */
  function ImportModule(name: string, outcome: string -> ImportOutcome): (r: Result<string>)
    ensures r.Ok? <==> outcome(name) == Imported
    ensures r.Ok? ==> r.value == name
    ensures outcome(name) == NotFound ==> r == Err(ImportError(name))
    ensures outcome(name) == InitFails ==> r == Err(ModuleInitError(name))
  {
    match outcome(name)
    case Imported => Ok(name)
    case NotFound => Err(ImportError(name))
    case InitFails => Err(ModuleInitError(name))
  }

  /** The text of the warning issued when the platform default cannot be loaded. */
  function FallbackWarning(platform: string): string {
    "Could not load the default wrapper for your platform: " + platform + ", performance may be affected!"
  }

  /** The module `load_wrapper` returns (or the error it raises), with the warnings it issues. */
  datatype Loading = Loading(loaded: Result<string>, warnings: seq<string>)

  /** `load_wrapper()`, with `_choice` passed as `choice`. An explicit choice
      is imported with no fallback and no warning. Otherwise the platform
      default is tried first. Only an `ImportError` is caught: then one warning
      naming the default is issued and `_nanomsg_ctypes` is imported instead.
      Any other error of the default's import propagates, with no warning. */
  function LoadWrapper(choice: Option<string>, implementation: string, outcome: string -> ImportOutcome): (r: Loading)
    ensures |r.warnings| <= 1
    ensures r.loaded.Ok? ==> outcome(r.loaded.value) == Imported && StartsWith(r.loaded.value, Prefix)
    ensures choice.Some? ==>
      && r.warnings == []
      && (r.loaded.Ok? <==> outcome(Prefix + choice.value) == Imported)
      && (r.loaded.Ok? ==> r.loaded.value == Prefix + choice.value)
      && (outcome(Prefix + choice.value) == NotFound ==> r.loaded == Err(ImportError(Prefix + choice.value)))
      && (outcome(Prefix + choice.value) == InitFails ==> r.loaded == Err(ModuleInitError(Prefix + choice.value)))
    ensures choice.None? && outcome(Prefix + DefaultForPlatform(implementation)) == Imported ==>
      r == Loading(Ok(Prefix + DefaultForPlatform(implementation)), [])
    ensures choice.None? && outcome(Prefix + DefaultForPlatform(implementation)) == InitFails ==>
      r == Loading(Err(ModuleInitError(Prefix + DefaultForPlatform(implementation))), [])
    ensures choice.None? && outcome(Prefix + DefaultForPlatform(implementation)) == NotFound ==>
      && r.warnings == [FallbackWarning(DefaultForPlatform(implementation))]
      && (r.loaded.Ok? <==> outcome(Prefix + "ctypes") == Imported)
      && (r.loaded.Ok? ==> r.loaded.value == Prefix + "ctypes")
      && (outcome(Prefix + "ctypes") == NotFound ==> r.loaded == Err(ImportError(Prefix + "ctypes")))
      && (outcome(Prefix + "ctypes") == InitFails ==> r.loaded == Err(ModuleInitError(Prefix + "ctypes")))
  {
    match choice
    case Some(name) =>
      PrefixedStartsWith(name);
      Loading(ImportModule(Prefix + name, outcome), [])
    case None =>
      var platform := DefaultForPlatform(implementation);
      PrefixedStartsWith(platform);
      PrefixedStartsWith("ctypes");
      var first := ImportModule(Prefix + platform, outcome);
      if first.Ok? || !first.error.ImportError? then Loading(first, [])
      else Loading(ImportModule(Prefix + "ctypes", outcome), [FallbackWarning(platform)])
  }

  lemma PrefixedStartsWith(name: string)
    ensures StartsWith(Prefix + name, Prefix)
  {
    assert (Prefix + name)[..|Prefix|] == Prefix;
  }

  /** `module_name.split('_', 2)[-1]`. */
  function WrapperName(moduleName: string): (r: string)
    ensures |r| <= |moduleName| && r == moduleName[|moduleName| - |r|..]
  {
    var parts := SplitMax(moduleName, '_', 2);
    parts[|parts| - 1]
  }

  /** For a backend module, the last field of `split('_', 2)` is everything after `_nanomsg_`. */
  lemma WrapperNameAfterPrefix(moduleName: string)
    requires StartsWith(moduleName, Prefix)
    ensures WrapperName(moduleName) == moduleName[|Prefix|..]
  {
    var m := moduleName;
    assert m[..9] == Prefix;
    assert m[0] == '_';
    SplitOnceAt(m, '_', 0);
    var t := m[1..];
    assert t[7] == m[8] == '_';
    forall j | 0 <= j < 7
      ensures t[j] != '_'
    {
      assert t[j] == Prefix[j + 1];
    }
    assert '_' !in t[..7];
    SplitOnceAt(t, '_', 7);
    assert t[8..] == m[9..];
    assert SplitMax(m, '_', 2) == [m[..0]] + ([t[..7]] + [m[9..]]);
  }

  /** `list_wrappers()` over the names `pkgutil.iter_modules()` yields, in order. */
  function ListWrappers(moduleNames: seq<string>): (names: seq<string>)
    ensures |names| <= |moduleNames|
  {
    if moduleNames == [] then []
    else
      var last := moduleNames[|moduleNames| - 1];
      ListWrappers(moduleNames[..|moduleNames| - 1])
        + (if StartsWith(last, Prefix) then [WrapperName(last)] else [])
  }

  /** A listed wrapper is exactly the tail, after `_nanomsg_`, of some module
      whose name begins with `_nanomsg_`. */
  lemma {:induction false} ListWrappersSpec(moduleNames: seq<string>, name: string)
    ensures name in ListWrappers(moduleNames) <==>
      exists m :: m in moduleNames && StartsWith(m, Prefix) && name == m[|Prefix|..]
  {
    if moduleNames != [] {
      ListWrappersSpec(moduleNames[..|moduleNames| - 1], name);
      ListWrappersLast(moduleNames);
      NamesLast(moduleNames, name);
    }
  }

  /** The last module adds its tail after `_nanomsg_`, if it is a backend. */
  lemma ListWrappersLast(moduleNames: seq<string>)
    requires moduleNames != []
    ensures var last := moduleNames[|moduleNames| - 1];
      ListWrappers(moduleNames) == ListWrappers(moduleNames[..|moduleNames| - 1])
        + (if StartsWith(last, Prefix) then [last[|Prefix|..]] else [])
  {
    var last := moduleNames[|moduleNames| - 1];
    if StartsWith(last, Prefix) {
      WrapperNameAfterPrefix(last);
    }
  }

  lemma NamesLast(moduleNames: seq<string>, name: string)
    requires moduleNames != []
    ensures var init := moduleNames[..|moduleNames| - 1];
      var last := moduleNames[|moduleNames| - 1];
      (exists m :: m in moduleNames && StartsWith(m, Prefix) && name == m[|Prefix|..]) <==>
        (exists m :: m in init && StartsWith(m, Prefix) && name == m[|Prefix|..])
        || (StartsWith(last, Prefix) && name == last[|Prefix|..])
  {
    var init := moduleNames[..|moduleNames| - 1];
    var last := moduleNames[|moduleNames| - 1];
    assert moduleNames == init + [last];
    if exists m :: m in moduleNames && StartsWith(m, Prefix) && name == m[|Prefix|..] {
      var m :| m in moduleNames && StartsWith(m, Prefix) && name == m[|Prefix|..];
      if m != last {
        assert m in init;
      }
    }
  }
}
