/** `Config` (Models/Config.cs): the saved Azure environment variables, put
    into the process environment at start and refreshed from it. The process
    environment is a map that `SetEnvironment` changes in place; the order in
    which `GetEnvironmentVariables()` enumerates it is given as a key
    sequence. */
module Config {
  import opened Wrappers
  import opened Text
  import opened Runtime

  const AzurePrefix := "AZURE_"

  /** `Environment.SetEnvironmentVariable(key, value)` on the variables: an
      empty value removes the variable. */
  function SetVariable(vars: map<string, string>, key: string, value: string): (r: map<string, string>)
    ensures value == "" ==> key !in r
    ensures value != "" ==> key in r && r[key] == value
    ensures forall k | k != key :: (k in r <==> k in vars) && (k in r ==> r[k] == vars[k])
  {
    if value == "" then vars - {key} else vars[key := value]
  }

  /** The variables after every saved entry was set. */
  function Applied(vars: map<string, string>, saved: map<string, string>): (r: map<string, string>)
    ensures forall k | k in saved && saved[k] != "" :: k in r && r[k] == saved[k]
    ensures forall k | k in saved && saved[k] == "" :: k !in r
    ensures forall k | k !in saved :: (k in r <==> k in vars) && (k in r ==> r[k] == vars[k])
  {
    map k | k in vars.Keys + saved.Keys && !(k in saved && saved[k] == "") :: if k in saved then saved[k] else vars[k]
  }

  /** The refresh as written, over the variables in enumeration order: an
      `AZURE_` variable (ignoring case) that is absent from the saved entries
      is added and marks a change; one saved with the same value is left
      alone; one saved with another value makes `Add` throw, after the
      earlier additions were made. */
  function Refresh(saved: map<string, string>, vars: map<string, string>, order: seq<string>): (map<string, string>, Result<bool, Exc>)
    requires forall k | k in order :: k in vars
  {
    if order == [] then (saved, Ok(false))
    else
      var init := order[..|order| - 1];
      var key := order[|order| - 1];
      assert forall k | k in init :: k in order;
      var (d, changed) := Refresh(saved, vars, init);
      if changed.Err? then (d, changed)
      else if !StartsWithIgnoreCase(key, AzurePrefix) then (d, changed)
      else if key in d && d[key] == vars[key] then (d, changed)
      else if key in d then (d, Err(Argument))
      else (d[key := vars[key]], Ok(true))
  }

  /** The `AZURE_` variables (ignoring case) among the first keys of the
      enumeration. */
  function AzureKeys(order: seq<string>): (ks: set<string>)
    ensures forall k :: k in ks <==> k in order && StartsWithIgnoreCase(k, AzurePrefix)
  {
    set k | k in order && StartsWithIgnoreCase(k, AzurePrefix)
  }

  /** When no `AZURE_` variable conflicts with a saved entry, the refresh
      completes: the saved entries are kept, exactly the `AZURE_` variables
      that were not saved are added with their values, and the result says
      whether anything was added. */
  lemma {:induction false} RefreshAdds(saved: map<string, string>, vars: map<string, string>, order: seq<string>)
    requires forall k | k in order :: k in vars
    requires forall k | k in order && StartsWithIgnoreCase(k, AzurePrefix) && k in saved :: saved[k] == vars[k]
    ensures var (d, changed) := Refresh(saved, vars, order);
      && changed.Ok?
      && d.Keys == saved.Keys + AzureKeys(order)
      && (forall k | k in saved :: d[k] == saved[k])
      && (forall k | k in AzureKeys(order) :: d[k] == vars[k])
      && (changed.value <==> exists k | k in order :: StartsWithIgnoreCase(k, AzurePrefix) && k !in saved)
  {
    if order != [] {
      var init := order[..|order| - 1];
      assert forall k | k in init :: k in order;
      RefreshAdds(saved, vars, init);
      assert forall k | k in order :: k in init || k == order[|order| - 1];
    }
  }

  /** `order` is an enumeration of `vars`: each variable exactly once. */
  predicate Enumerates(order: seq<string>, vars: map<string, string>)
  {
    && (forall k | k in order :: k in vars)
    && (forall k | k in vars :: k in order)
    && (forall i, j | 0 <= i < j < |order| :: order[i] != order[j])
  }

  /** Over a whole enumeration of the process variables, with no `AZURE_`
      variable saved under another value, the refreshed environment is the
      saved one plus every `AZURE_` process variable, whatever the order, and
      it reports a change exactly when one of them was not saved. */
  lemma EnvironmentRefreshAdds(saved: map<string, string>, vars: map<string, string>, order: seq<string>)
    requires Enumerates(order, vars)
    requires forall k | k in vars && StartsWithIgnoreCase(k, AzurePrefix) && k in saved :: saved[k] == vars[k]
    ensures var (d, changed) := Refresh(saved, vars, order);
      && changed.Ok?
      && d.Keys == saved.Keys + (set k | k in vars && StartsWithIgnoreCase(k, AzurePrefix))
      && (forall k | k in saved :: d[k] == saved[k])
      && (forall k | k in vars && StartsWithIgnoreCase(k, AzurePrefix) :: d[k] == vars[k])
      && (changed.value <==> exists k | k in vars :: StartsWithIgnoreCase(k, AzurePrefix) && k !in saved)
  {
    RefreshAdds(saved, vars, order);
  }

  /** A variable saved with a different value makes the refresh throw. */
  lemma {:induction false} RefreshConflict(saved: map<string, string>, vars: map<string, string>, order: seq<string>, i: nat)
    requires forall k | k in order :: k in vars
    requires i < |order| && StartsWithIgnoreCase(order[i], AzurePrefix)
    requires order[i] in saved && saved[order[i]] != vars[order[i]]
    ensures Refresh(saved, vars, order).1 == Err(Argument)
  {
    var init := order[..|order| - 1];
    assert forall k | k in init :: k in order;
    RefreshKeeps(saved, vars, init);
    if i < |order| - 1 {
      assert init[i] == order[i];
      RefreshConflict(saved, vars, init, i);
    }
  }

  /** The refresh never changes or removes a saved entry. */
  lemma {:induction false} RefreshKeeps(saved: map<string, string>, vars: map<string, string>, order: seq<string>)
    requires forall k | k in order :: k in vars
    ensures var d := Refresh(saved, vars, order).0;
      forall k | k in saved :: k in d && d[k] == saved[k]
    ensures Refresh(saved, vars, order).1.Err? ==> Refresh(saved, vars, order).1.error == Argument
  {
    if order != [] {
      var init := order[..|order| - 1];
      assert forall k | k in init :: k in order;
      RefreshKeeps(saved, vars, init);
    }
  }

  /** Right after the saved entries were set, refreshing cannot throw: every
      saved `AZURE_` variable still present has its saved value. */
  lemma RefreshAfterApply(saved: map<string, string>, vars: map<string, string>, order: seq<string>)
    requires forall k | k in order :: k in Applied(vars, saved)
    ensures Refresh(saved, Applied(vars, saved), order).1.Ok?
  {
    RefreshAdds(saved, Applied(vars, saved), order);
  }

  /** Setting one more entry is setting that variable. */
  lemma ApplyOne(vars: map<string, string>, done: map<string, string>, key: string, value: string)
    ensures Applied(vars, done[key := value]) == SetVariable(Applied(vars, done), key, value)
  {
    var a := Applied(vars, done[key := value]);
    var b := SetVariable(Applied(vars, done), key, value);
    assert forall k :: k in a <==> k in b;
    assert forall k | k in a :: a[k] == b[k];
  }

  /** The process environment. */
  class ProcessEnvironment {
    var vars: map<string, string>

    constructor (initial: map<string, string>)
      ensures vars == initial
    {
      vars := initial;
    }
  }

  /** The saved configuration, whose `Environment` dictionary the methods
      change in place. */
  class Settings {
    var environment: map<string, string>

    constructor ()
      ensures environment == map[]
    {
      environment := map[];
    }

    /** `SetEnvironment()`: every saved entry written into the process
        environment. */
    method SetEnvironment(process: ProcessEnvironment)
      modifies process
      ensures process.vars == Applied(old(process.vars), environment)
    {
      var pending := environment.Keys;
      ghost var done: map<string, string> := map[];
      while pending != {}
        invariant pending <= environment.Keys
        invariant done == map k | k in environment.Keys - pending :: environment[k]
        invariant process.vars == Applied(old(process.vars), done)
        decreases pending
      {
        var key :| key in pending;
        ApplyOne(old(process.vars), done, key, environment[key]);
        process.vars := SetVariable(process.vars, key, environment[key]);
        pending := pending - {key};
        done := done[key := environment[key]];
      }
      assert done == environment;
    }

    /** `GetEnvironment()` as written, over the process variables in the
        order `order` enumerates them. */
    method GetEnvironment(process: ProcessEnvironment, order: seq<string>) returns (r: Result<bool, Exc>)
      requires Enumerates(order, process.vars)
      modifies this
      ensures (environment, r) == Refresh(old(environment), process.vars, order)
    {
      var changed := false;
      for i := 0 to |order|
        invariant forall k | k in order[..i] :: k in order
        invariant (environment, Ok(changed)) == Refresh(old(environment), process.vars, order[..i])
      {
        assert order[..i + 1][..i] == order[..i];
        var key := order[i];
        if StartsWithIgnoreCase(key, AzurePrefix) {
          if !(key in environment && environment[key] == process.vars[key]) {
            if key in environment {
              StopsAfter(old(environment), process.vars, order, i + 1);
              return Err(Argument);
            }
            environment := environment[key := process.vars[key]];
            changed := true;
          }
        }
      }
      assert order[..|order|] == order;
      r := Ok(changed);
    }
  }

  /** Once an `Add` throws, the refresh stops there. */
  lemma {:induction false} StopsAfter(saved: map<string, string>, vars: map<string, string>, order: seq<string>, n: nat)
    requires forall k | k in order :: k in vars
    requires n <= |order|
    requires forall k | k in order[..n] :: k in vars
    requires Refresh(saved, vars, order[..n]).1.Err?
    ensures Refresh(saved, vars, order) == Refresh(saved, vars, order[..n])
    decreases |order| - n
  {
    if n == |order| {
      assert order[..n] == order;
    } else {
      assert order[..n + 1][..n] == order[..n];
      assert forall k | k in order[..n + 1] :: k in order;
      StopsAfter(saved, vars, order, n + 1);
    }
  }

  /** `LoadConfig(file)`: null when the file does not exist, cannot be read
      or parsed, or holds a null configuration; otherwise its entries.
      Parsing is an answer given in advance for each text. */
  function LoadConfig(files: map<string, FileEntry>, file: string, parse: string -> Result<Option<map<string, string>>, Exc>)
    : (r: Option<map<string, string>>)
    ensures file !in files ==> r.None?
    ensures r.Some? <==> file in files && parse(files[file].text).Ok? && parse(files[file].text).value.Some?
    ensures r.Some? ==> r.value == parse(files[file].text).value.value
  {
    if file !in files then None
    else
      var parsed := parse(files[file].text);
      if parsed.Err? || parsed.value.None? then None else parsed.value
  }

  /** `SaveConfig(file)`: true after the serialised entries were written,
      false when writing throws (`failure`), in which case nothing changes. */
  method SaveConfig(settings: Settings, host: Host, file: string, serialize: map<string, string> -> string, failure: Option<Exc>)
    returns (saved: bool)
    modifies host
    ensures saved <==> failure.None?
    ensures saved ==> host.State() == old(host.State()).(files := WriteText(old(host.files), file, serialize(settings.environment)))
    ensures !saved ==> host.State() == old(host.State())
  {
    if failure.Some? {
      return false;
    }
    host.WriteAllText(file, serialize(settings.environment));
    return true;
  }

  /** What `SaveConfig` writes, `LoadConfig` reads back, when parsing
      inverts serialising. */
  lemma SaveThenLoad(files: map<string, FileEntry>, file: string, environment: map<string, string>,
                     serialize: map<string, string> -> string, parse: string -> Result<Option<map<string, string>>, Exc>)
    requires parse(serialize(environment)) == Ok(Some(environment))
    ensures LoadConfig(WriteText(files, file, serialize(environment)), file, parse) == Some(environment)
  {
  }
}
