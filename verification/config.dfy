/** The environment-based configuration loader of `pkg/issuer/config.go`.

    The process environment is the sequence of `KEY=VALUE` entries that
    `os.Environ` returns, in order; the file system is a `Disk`; and
    `time.ParseDuration` is an abstract parser handed in by the caller. */
module IssuerConfig {
  import opened Wrappers
  import opened Strings
  import opened UrlValues
  import opened Clock
  import opened Errors
  import opened Files

  const EnvPrefix := "dex_"
  const EnvFromFilePrefix := "dex_file_"

  const AccessTokenFileVar := "dex_access_token_file"
  const EndpointVar := "dex_endpoint"
  const BasicAuthVar := "dex_basic_auth"
  const RefreshBeforeVar := "dex_refresh_before"

  /** The margin used when `dex_refresh_before` is unset or empty. */
  const DefaultRefreshBefore: Duration := Hour

  /** Everything one rotation cycle needs. `values` are the form parameters
      of the exchange request; `basicAuth` is a `user:password` text. */
  datatype Config = Config(
    endpoint: string,
    values: Values,
    dstPath: string,
    basicAuth: string,
    refreshBefore: Duration)

  /** `os.Getenv`: the value of the first entry whose name (the text before
      its first `=`) is `name`; the empty string when there is none. Entries
      without `=` have no name. */
  function Getenv(envs: seq<string>, name: string): (r: string)
    ensures '=' in name ==> r == ""
    ensures r != "" ==> name + "=" + r in envs
  {
    if envs == [] then ""
    else
      var s := Cut(envs[0], '=');
      if s.found && s.before == name then s.after else Getenv(envs[1..], name)
  }

  /** Getenv finds the first entry that defines `name`. */
  lemma {:induction false} GetenvFirst(envs: seq<string>, name: string, i: nat, value: string)
    requires '=' !in name
    requires i < |envs| && envs[i] == name + "=" + value
    requires forall j :: 0 <= j < i ==> !(name + "=" <= envs[j])
    ensures Getenv(envs, name) == value
  {
    if i == 0 {
      CutAtFirst(name, '=', value);
    } else {
      GetenvFirst(envs[1..], name, i - 1, value);
    }
  }

  /** An unset variable reads as the empty string. */
  lemma {:induction false} GetenvUnset(envs: seq<string>, name: string)
    requires forall j :: 0 <= j < |envs| ==> !(name + "=" <= envs[j])
    ensures Getenv(envs, name) == ""
  {
    if envs != [] {
      GetenvUnset(envs[1..], name);
    }
  }

  /** `loadFromEnv`: an entry `dex_K=V` gives the parameter `(K, V)`, split
      at the first `=` so that `V` may itself contain `=`; an entry without
      the prefix gives the empty key, which the caller skips. */
  function LoadFromEnv(env: string): (p: Param)
    ensures !(EnvPrefix <= env) ==> p == Param("", "")
    ensures EnvPrefix <= env ==> '=' !in p.key
    ensures EnvPrefix <= env ==>
      env == EnvPrefix + p.key + "=" + p.value || (env == EnvPrefix + p.key && p.value == "")
  {
    var t := CutPrefix(env, EnvPrefix);
    if !t.found then Param("", "")
    else
      var s := Cut(t.after, '=');
      Param(s.before, s.after)
  }

  /** `loadFromFile`: an entry `dex_file_K=P` gives the parameter `K` whose
      value is the contents of the file at `P`; an unreadable file is an
      error. An entry without the prefix gives the empty key. */
  function LoadFromFile(env: string, disk: Disk): (r: Result<Param, Error>)
    ensures !(EnvFromFilePrefix <= env) ==> r == Success(Param("", ""))
    ensures r.Success? && EnvFromFilePrefix <= env ==> '=' !in r.value.key
    ensures r.Failure? ==>
      EnvFromFilePrefix <= env && r.error == OpenEnvFile(env[|EnvFromFilePrefix|..])
  {
    var t := CutPrefix(env, EnvFromFilePrefix);
    if !t.found then Success(Param("", ""))
    else
      var s := Cut(t.after, '=');
      match ReadFile(disk, s.after)
      case None => Failure(OpenEnvFile(t.after))
      case Some(contents) => Success(Param(s.before, contents))
  }

  /** What one environment entry contributes to the request parameters: the
      file branch is tried first, then the literal branch; an empty key from
      both means the entry contributes nothing. */
  function EntryOf(env: string, disk: Disk): (r: Result<Option<Param>, Error>)
    ensures !(EnvPrefix <= env) ==> r == Success(None)
    ensures r.Failure? ==> EnvFromFilePrefix <= env
    ensures r.Success? && r.value.Some? ==> r.value.value.key != "" && '=' !in r.value.value.key
  {
    match LoadFromFile(env, disk)
    case Failure(e) => Failure(e)
    case Success(fromFile) =>
      if fromFile.key != "" then Success(Some(fromFile))
      else
        var literal := LoadFromEnv(env);
        if literal.key != "" then Success(Some(literal)) else Success(None)
  }

  /** A `dex_` entry whose key does not start with `file_` is not taken by
      the file branch. */
  lemma NotFileEntry(key: string, rest: string)
    requires '=' !in key && !("file_" <= key)
    requires rest == "" || rest[0] == '='
    ensures !(EnvFromFilePrefix <= EnvPrefix + key + rest)
  {
    var env := EnvPrefix + key + rest;
    if |key| >= 5 {
      assert key[..5] != "file_";
      var k :| 0 <= k < 5 && key[k] != "file_"[k];
      assert env[4 + k] == key[k];
      assert env[4 + k] != EnvFromFilePrefix[4 + k];
    } else if rest != "" {
      assert env[4 + |key|] == '=';
      assert env[4 + |key|] != EnvFromFilePrefix[4 + |key|];
    } else {
      assert |env| < |EnvFromFilePrefix|;
    }
  }

  /** The literal branch on `dex_K` followed by `=V`, or by nothing. */
  lemma LiteralBranch(key: string, rest: string, value: string)
    requires '=' !in key
    requires rest == "=" + value || (rest == "" && value == "")
    ensures LoadFromEnv(EnvPrefix + key + rest) == Param(key, value)
  {
    assert EnvPrefix + key + rest == EnvPrefix + (key + rest);
    CutPrefixOf(EnvPrefix, key + rest);
    if rest == "" {
      assert key + rest == key;
      CutAbsent(key, '=');
    } else {
      assert key + rest == key + "=" + value;
      CutAtFirst(key, '=', value);
    }
  }

  /** The file branch on `dex_file_K=P`: the contents of `P` under `K`. */
  lemma FileBranch(key: string, path: string, disk: Disk)
    requires '=' !in key
    ensures LoadFromFile(EnvFromFilePrefix + key + "=" + path, disk) ==
      if path in disk then Success(Param(key, disk[path]))
      else Failure(OpenEnvFile(key + "=" + path))
  {
    assert EnvFromFilePrefix + key + "=" + path == EnvFromFilePrefix + (key + "=" + path);
    CutPrefixOf(EnvFromFilePrefix, key + "=" + path);
    CutAtFirst(key, '=', path);
  }

  /** `dex_K=V` contributes the parameter `(K, V)`; `V` keeps any further `=`. */
  lemma LiteralEntry(key: string, value: string, disk: Disk)
    requires key != "" && '=' !in key && !("file_" <= key)
    ensures EntryOf(EnvPrefix + key + "=" + value, disk) == Success(Some(Param(key, value)))
  {
    NotFileEntry(key, "=" + value);
    assert EnvPrefix + key + "=" + value == EnvPrefix + key + ("=" + value);
    LiteralBranch(key, "=" + value, value);
  }

  /** `dex_K` without any `=` contributes `K` with the empty value. */
  lemma LiteralEntryWithoutValue(key: string, disk: Disk)
    requires key != "" && '=' !in key && !("file_" <= key)
    ensures EntryOf(EnvPrefix + key, disk) == Success(Some(Param(key, "")))
  {
    NotFileEntry(key, "");
    assert EnvPrefix + key + "" == EnvPrefix + key;
    LiteralBranch(key, "", "");
  }

  /** `dex_=V` has an empty key and contributes nothing. */
  lemma EmptyKeySkipped(value: string, disk: Disk)
    ensures EntryOf(EnvPrefix + "=" + value, disk) == Success(None)
  {
    var env := EnvPrefix + "=" + value;
    assert env[4] != EnvFromFilePrefix[4];
    assert env == EnvPrefix + "" + ("=" + value);
    LiteralBranch("", "=" + value, value);
  }

  /** `dex_file_K=P` contributes `K` with the contents of the file at `P`,
      and only that: the literal branch never sees the entry. An unreadable
      file is the error of the whole entry. */
  lemma FileEntry(key: string, path: string, disk: Disk)
    requires key != "" && '=' !in key
    ensures EntryOf(EnvFromFilePrefix + key + "=" + path, disk) ==
      if path in disk then Success(Some(Param(key, disk[path])))
      else Failure(OpenEnvFile(key + "=" + path))
  {
    FileBranch(key, path, disk);
  }

  /** `dex_file_K` without any `=` names the empty path, which no file has:
      the entry always fails, whatever the file system holds. */
  lemma FileEntryWithoutPath(key: string, disk: Disk)
    requires '=' !in key
    ensures EntryOf(EnvFromFilePrefix + key, disk) == Failure(OpenEnvFile(key))
  {
    CutPrefixOf(EnvFromFilePrefix, key);
    CutAbsent(key, '=');
  }

  /** `dex_file_=P` reads the file at `P` but, its key being empty, falls
      through to the literal branch and contributes `file_` with the path
      itself as value. */
  lemma EmptyFileKeyFallsThrough(path: string, disk: Disk)
    requires path in disk
    ensures EntryOf(EnvFromFilePrefix + "=" + path, disk) == Success(Some(Param("file_", path)))
  {
    var env := EnvFromFilePrefix + "=" + path;
    assert env == EnvFromFilePrefix + "" + "=" + path;
    FileBranch("", path, disk);
    assert env == EnvPrefix + "file_" + ("=" + path);
    LiteralBranch("file_", "=" + path, path);
  }

  /** The parameters one successfully read entry adds: none or one. */
  function Contribution(entry: Option<Param>): seq<Param>
  {
    match entry
    case None => []
    case Some(p) => [p]
  }

  /** The parameters the whole environment contributes, in environment order,
      or the error of the first entry that fails. */
  function Pairs(envs: seq<string>, disk: Disk): (r: Result<seq<Param>, Error>)
    ensures r.Success? ==> |r.value| <= |envs|
  {
    if envs == [] then Success([])
    else
      match Pairs(envs[..|envs| - 1], disk)
      case Failure(e) => Failure(e)
      case Success(ps) =>
        match EntryOf(envs[|envs| - 1], disk)
        case Failure(e) => Failure(e)
        case Success(entry) => Success(ps + Contribution(entry))
  }

  /** Every parameter the environment contributes has a non-empty key: the
      entries the source skips never reach the multimap. */
  lemma {:induction false} PairsKeysNonEmpty(envs: seq<string>, disk: Disk)
    requires Pairs(envs, disk).Success?
    ensures forall p | p in Pairs(envs, disk).value :: p.key != ""
  {
    if envs != [] {
      PairsKeysNonEmpty(envs[..|envs| - 1], disk);
    }
  }

  /** A load of a non-empty environment succeeds when the load of all but
      the last entry does and the last entry does. */
  lemma PairsLast(envs: seq<string>, disk: Disk)
    requires envs != []
    ensures Pairs(envs, disk).Success? <==>
      Pairs(envs[..|envs| - 1], disk).Success? && EntryOf(envs[|envs| - 1], disk).Success?
  {
  }

  /** A successful load read every entry successfully. */
  lemma {:induction false} PairsSuccessEvery(envs: seq<string>, disk: Disk, j: nat)
    requires Pairs(envs, disk).Success? && j < |envs|
    ensures EntryOf(envs[j], disk).Success?
  {
    var n := |envs| - 1;
    PairsLast(envs, disk);
    if j < n {
      PairsSuccessEvery(envs[..n], disk, j);
      assert envs[..n][j] == envs[j];
    }
  }

  /** A load whose every entry reads succeeds. */
  lemma {:induction false} EveryEntrySucceeds(envs: seq<string>, disk: Disk)
    requires forall j :: 0 <= j < |envs| ==> EntryOf(envs[j], disk).Success?
    ensures Pairs(envs, disk).Success?
  {
    if envs != [] {
      var n := |envs| - 1;
      var init := envs[..n];
      forall j | 0 <= j < |init| ensures EntryOf(init[j], disk).Success? {
        assert init[j] == envs[j];
      }
      EveryEntrySucceeds(init, disk);
      PairsLast(envs, disk);
    }
  }

  /** The load succeeds exactly when every entry does. */
  lemma PairsSuccess(envs: seq<string>, disk: Disk)
    ensures Pairs(envs, disk).Success? <==>
      forall j :: 0 <= j < |envs| ==> EntryOf(envs[j], disk).Success?
  {
    if Pairs(envs, disk).Success? {
      forall j | 0 <= j < |envs| ensures EntryOf(envs[j], disk).Success? {
        PairsSuccessEvery(envs, disk, j);
      }
    } else if forall j :: 0 <= j < |envs| ==> EntryOf(envs[j], disk).Success? {
      EveryEntrySucceeds(envs, disk);
    }
  }

  /** A failing entry aborts the load with its own error, provided no earlier
      entry failed; later entries are never looked at. */
  lemma {:induction false} PairsFirstFailure(envs: seq<string>, disk: Disk, i: nat)
    requires i < |envs| && EntryOf(envs[i], disk).Failure?
    requires forall j :: 0 <= j < i ==> EntryOf(envs[j], disk).Success?
    ensures Pairs(envs, disk) == Failure(EntryOf(envs[i], disk).error)
  {
    var init := envs[..|envs| - 1];
    assert forall j :: 0 <= j < |init| ==> init[j] == envs[j];
    if i == |envs| - 1 {
      PairsSuccess(init, disk);
    } else {
      PairsFirstFailure(init, disk, i);
    }
  }

  /** The loop stops at the first failing entry with that entry's error. */
  lemma PairsStopAt(envs: seq<string>, disk: Disk, i: nat)
    requires i < |envs|
    requires Pairs(envs[..i], disk).Success? && EntryOf(envs[i], disk).Failure?
    ensures Pairs(envs, disk) == Failure(EntryOf(envs[i], disk).error)
  {
    PairsSuccess(envs[..i], disk);
    assert forall j :: 0 <= j < i ==> envs[..i][j] == envs[j];
    PairsFirstFailure(envs, disk, i);
  }

  /** One more entry extends a successful load by what that entry contributes. */
  lemma PairsExtend(envs: seq<string>, disk: Disk, i: nat)
    requires i < |envs|
    requires Pairs(envs[..i], disk).Success? && EntryOf(envs[i], disk).Success?
    ensures Pairs(envs[..i + 1], disk) ==
      Success(Pairs(envs[..i], disk).value + Contribution(EntryOf(envs[i], disk).value))
  {
    var xs := envs[..i + 1];
    assert xs[..|xs| - 1] == envs[..i];
    assert xs[|xs| - 1] == envs[i];
  }

  /** Records what one entry contributes: a parameter with a non-empty key is
      appended with `url.Values.Add`; otherwise nothing changes. */
  function AddEntry(vs: Values, entry: Option<Param>): Values
  {
    match entry
    case None => vs
    case Some(p) => Add(vs, p.key, p.value)
  }

  /** One iteration of the loop keeps the multimap equal to the grouping of
      the parameters read so far. */
  lemma CollectStep(envs: seq<string>, disk: Disk, i: nat)
    requires i < |envs|
    requires Pairs(envs[..i], disk).Success? && EntryOf(envs[i], disk).Success?
    ensures Pairs(envs[..i + 1], disk).Success?
    ensures Group(Pairs(envs[..i + 1], disk).value) ==
      AddEntry(Group(Pairs(envs[..i], disk).value), EntryOf(envs[i], disk).value)
  {
    PairsExtend(envs, disk, i);
    var ps := Pairs(envs[..i], disk).value;
    match EntryOf(envs[i], disk).value
    case None =>
      assert ps + [] == ps;
    case Some(p) =>
      GroupSnoc(ps, p);
  }

  /** The loop of `ConfigFromEnvs`: every entry that contributes is appended
      to the multimap in environment order, and the first failing entry
      aborts the loop. */
  method CollectValues(envs: seq<string>, disk: Disk) returns (r: Result<Values, Error>)
    ensures r.Failure? <==> Pairs(envs, disk).Failure?
    ensures r.Failure? ==> r.error == Pairs(envs, disk).error
    ensures r.Success? ==> r.value == Group(Pairs(envs, disk).value)
  {
    var values: Values := map[];
    var i := 0;
    ghost var ps: seq<Param> := [];
    while i < |envs|
      invariant i <= |envs|
      invariant Pairs(envs[..i], disk) == Success(ps)
      invariant values == Group(ps)
    {
      var entry := EntryOf(envs[i], disk);
      if entry.Failure? {
        PairsStopAt(envs, disk, i);
        return Failure(entry.error);
      }
      CollectStep(envs, disk, i);
      values := AddEntry(values, entry.value);
      ps := Pairs(envs[..i + 1], disk).value;
      i := i + 1;
    }
    assert envs[..i] == envs;
    r := Success(values);
  }

  /** `ConfigFromEnvs`: folds the environment into the request parameters,
      then reads the four settings the sidecar itself uses. A failed file
      read or an unparsable `dex_refresh_before` discards the configuration. */
  method ConfigFromEnvs(envs: seq<string>, disk: Disk, parseDuration: string -> Option<Duration>)
    returns (r: Result<Config, Error>)
    ensures Pairs(envs, disk).Failure? ==> r == Failure(Pairs(envs, disk).error)
    ensures Pairs(envs, disk).Success? ==>
      var text := Getenv(envs, RefreshBeforeVar);
      (r.Failure? <==> text != "" && parseDuration(text).None?) &&
      (r.Failure? ==> r.error == ParseRefreshBefore(text))
    ensures r.Success? ==> Pairs(envs, disk).Success?
    ensures r.Success? ==> forall k :: Get(r.value.values, k) == ValuesOf(Pairs(envs, disk).value, k)
    ensures r.Success? ==> r.value.values.Keys == KeysOf(Pairs(envs, disk).value)
    ensures r.Success? ==>
      && r.value.dstPath == Getenv(envs, AccessTokenFileVar)
      && r.value.endpoint == Getenv(envs, EndpointVar)
      && r.value.basicAuth == Getenv(envs, BasicAuthVar)
    ensures r.Success? && Getenv(envs, RefreshBeforeVar) == "" ==>
      r.value.refreshBefore == DefaultRefreshBefore
    ensures r.Success? && Getenv(envs, RefreshBeforeVar) != "" ==>
      parseDuration(Getenv(envs, RefreshBeforeVar)) == Some(r.value.refreshBefore)
  {
    var collected := CollectValues(envs, disk);
    if collected.Failure? {
      return Failure(collected.error);
    }
    var values := collected.value;
    var pairs := Pairs(envs, disk).value;
    forall k ensures Get(values, k) == ValuesOf(pairs, k) {
      GroupLookup(pairs, k);
    }
    GroupKeys(pairs);

    var refreshBefore := DefaultRefreshBefore;
    var text := Getenv(envs, RefreshBeforeVar);
    if text != "" {
      match parseDuration(text)
      case None =>
        return Failure(ParseRefreshBefore(text));
      case Some(d) =>
        refreshBefore := d;
    }
    r := Success(Config(
      Getenv(envs, EndpointVar),
      values,
      Getenv(envs, AccessTokenFileVar),
      Getenv(envs, BasicAuthVar),
      refreshBefore));
  }
}
