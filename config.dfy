/**
 * Configuration of the search service: the store connection settings and the
 * credential model derived from them, and the helpers that fold the YAML file
 * and the environment into one nested dictionary.
 */
module Config {
  import opened Wrappers
  import opened OrderedDict
  import opened PyText

  /** Connection settings for the search store; the four credentials are optional. */
  datatype ElasticsearchSettings = ElasticsearchSettings(
    host: string,
    port: int,
    scheme: string,
    index: string,
    username: Option<string>,
    password: Option<string>,
    apiKey: Option<string>,
    bearerToken: Option<string>)

  const DefaultSettings := ElasticsearchSettings("localhost", 9200, "http", "docs", None, None, None, None)

  /** Base URL of the store: `scheme://host:port`. */
  function Url(s: ElasticsearchSettings): string {
    s.scheme + "://" + s.host + ":" + DecimalString(s.port)
  }

  /**
   * The URL begins with the scheme and `://`, and whatever the host is, the
   * text after its last `:` reads back as the configured port.
   */
  lemma UrlShape(s: ElasticsearchSettings)
    ensures Url(s)[..|s.scheme| + 3] == s.scheme + "://"
    ensures ParseInt(AfterLast(Url(s), ':')) == Some(s.port)
  {
    var digits := DecimalString(s.port);
    var front := s.scheme + "://" + s.host;
    NoColonInDecimal(s.port);
    assert Url(s) == front + [':'] + digits;
    assert Url(s)[..|s.scheme| + 3] == front[..|s.scheme| + 3];
    AfterLastOfSuffix(front, ':', digits);
    ParseDecimalString(s.port);
  }

  lemma NoColonInDecimal(n: int)
    ensures ':' !in DecimalString(n)
  {
    var digits := NatDigits(if n < 0 then -n else n);
    assert forall k :: 0 <= k < |digits| ==> digits[k] != ':';
    if n < 0 {
      assert DecimalString(n) == ['-'] + digits;
    }
  }

  /** True when any credential mechanism is configured (a pair counts only when both halves are set). */
  predicate HasCredentials(s: ElasticsearchSettings) {
    (Truthy(s.username) && Truthy(s.password)) || Truthy(s.apiKey) || Truthy(s.bearerToken)
  }

  /** The one authentication mechanism the store client is built with. */
  datatype ClientAuth =
    | NoAuth
    | ApiKeyAuth(apiKey: string)
    | BearerAuth(token: string)
    | BasicAuth(username: string, password: string)

  /** The client's mechanism: API key first, then bearer token, then the username/password pair. */
  function AuthKwargs(s: ElasticsearchSettings): (r: ClientAuth)
    ensures r.NoAuth? <==> !HasCredentials(s)
    ensures r.ApiKeyAuth? ==> Some(r.apiKey) == s.apiKey && Truthy(s.apiKey)
    ensures r.BearerAuth? ==> Some(r.token) == s.bearerToken && Truthy(s.bearerToken) && !Truthy(s.apiKey)
    ensures r.BasicAuth? ==>
      && Some(r.username) == s.username && Some(r.password) == s.password
      && Truthy(s.username) && Truthy(s.password)
      && !Truthy(s.apiKey) && !Truthy(s.bearerToken)
  {
    if Truthy(s.apiKey) then ApiKeyAuth(s.apiKey.value)
    else if Truthy(s.bearerToken) then BearerAuth(s.bearerToken.value)
    else if Truthy(s.username) && Truthy(s.password) then BasicAuth(s.username.value, s.password.value)
    else NoAuth
  }

  /** A configured API key is always the mechanism chosen, whatever else is configured. */
  lemma ApiKeyTakesPrecedence(s: ElasticsearchSettings)
    requires Truthy(s.apiKey)
    ensures AuthKwargs(s) == ApiKeyAuth(s.apiKey.value)
  {
  }

  /** `_try_int`: `None` stays `None`; a string is read as Python's `int()` reads ASCII text, `None` where it raises. */
  function TryInt(value: Option<string>): (r: Option<int>)
    ensures value.None? ==> r.None?
    ensures value.Some? ==> r == ParseInt(value.value)
  {
    match value
    case None => None
    case Some(s) => ParseInt(s)
  }

  /** `_try_int` inverts `str` on integers. */
  lemma TryIntReadsIntegers(n: int)
    ensures TryInt(Some(DecimalString(n))) == Some(n)
  {
    ParseDecimalString(n);
  }

  /** `_try_int` yields `None` for ASCII text that is no integer. */
  lemma TryIntRejectsText(s: string, k: nat)
    requires k < |s| && !IsDigit(s[k]) && s[k] !in {'_', '+', '-'} && s[k] !in Whitespace
    ensures TryInt(Some(s)) == None
  {
    ParseIntRejectsForeignChar(s, k);
  }

  // ---------------------------------------------------------------------------
  // Nested configuration dictionaries

  /** A value read from YAML or the environment; `CDict` is a nested dictionary. */
  datatype ConfigValue =
    | CNone
    | CBool(b: bool)
    | CInt(i: int)
    | CText(s: string)
    | CDict(entries: Dict<ConfigValue>)

  /** `_deep_merge` from the `i`-th entry of `override` on, with `acc` holding what is merged so far. */
  function MergeFrom(acc: Dict<ConfigValue>, override: Dict<ConfigValue>, i: nat): Dict<ConfigValue>
    requires i <= |override|
    decreases CDict(override), 1, |override| - i
  {
    if i == |override| then acc
    else
      assert override[i] in override;
      MergeFrom(MergeEntry(acc, override[i].0, override[i].1), override, i + 1)
  }

  /** One entry of `_deep_merge`: `v` is stored under `k`, merged with the value there when both are dictionaries. */
  function MergeEntry(acc: Dict<ConfigValue>, k: string, v: ConfigValue): Dict<ConfigValue>
    decreases v, 3
  {
    Put(acc, k, Merged(Get(acc, k), v))
  }

  /** The value `_deep_merge` stores under a key that the override maps to `v`. */
  function Merged(current: Option<ConfigValue>, v: ConfigValue): ConfigValue
    decreases v, 2
  {
    if current.Some? && current.value.CDict? && v.CDict? then
      CDict(MergeFrom(current.value.entries, v.entries, 0))
    else v
  }

  /** `_deep_merge(base, override)`: the override wins, except that two dictionaries are merged. */
  function DeepMerge(base: Dict<ConfigValue>, override: Dict<ConfigValue>): Dict<ConfigValue> {
    MergeFrom(base, override, 0)
  }

  /**
   * `_deep_merge` as the source runs it: a copy of `base`, then each
   * override entry stored in turn.
   */
  method ComputeDeepMerge(base: Dict<ConfigValue>, override: Dict<ConfigValue>) returns (result: Dict<ConfigValue>)
    ensures result == DeepMerge(base, override)
    decreases CDict(override), 0
  {
    result := base;
    var i := 0;
    while i < |override|
      invariant i <= |override|
      invariant MergeFrom(result, override, i) == DeepMerge(base, override)
    {
      assert override[i] in override;
      result := StoreMerged(result, override[i].0, override[i].1);
      i := i + 1;
    }
  }

  /**
   * The loop body of `_deep_merge`: where the stored value and `value` are
   * both dictionaries they are merged recursively, otherwise `value` is stored.
   */
  method StoreMerged(result: Dict<ConfigValue>, key: string, value: ConfigValue) returns (updated: Dict<ConfigValue>)
    ensures updated == MergeEntry(result, key, value)
    decreases value, 1
  {
    var current := Get(result, key);
    if current.Some? && current.value.CDict? && value.CDict? {
      var nested := ComputeDeepMerge(current.value.entries, value.entries);
      updated := Put(result, key, CDict(nested));
    } else {
      updated := Put(result, key, value);
    }
  }

  lemma {:induction false} MergeFromUnique(acc: Dict<ConfigValue>, override: Dict<ConfigValue>, i: nat)
    requires i <= |override| && UniqueKeys(acc)
    ensures UniqueKeys(MergeFrom(acc, override, i))
    decreases |override| - i
  {
    if i < |override| {
      var (k, v) := override[i];
      PutUnique(acc, k, Merged(Get(acc, k), v));
      MergeFromUnique(MergeEntry(acc, k, v), override, i + 1);
    }
  }

  lemma PutUnique(d: Dict<ConfigValue>, k: string, v: ConfigValue)
    requires UniqueKeys(d)
    ensures UniqueKeys(Put(d, k, v))
  {
  }

  /** A key the rest of the override does not hold keeps its value. */
  lemma {:induction false} MergeFromAbsent(acc: Dict<ConfigValue>, override: Dict<ConfigValue>, i: nat, k: string)
    requires i <= |override|
    requires forall j :: i <= j < |override| ==> override[j].0 != k
    ensures Get(MergeFrom(acc, override, i), k) == Get(acc, k)
    decreases |override| - i
  {
    if i < |override| {
      var next := MergeEntry(acc, override[i].0, override[i].1);
      MergeFromAbsent(next, override, i + 1, k);
      MergeFromUnfold(acc, override, i);
      MergeEntryGet(acc, override[i].0, override[i].1, k);
    }
  }

  /** A key the override holds at position `j` gets the value merged from the one before and the override's. */
  lemma {:induction false} MergeFromPresent(acc: Dict<ConfigValue>, override: Dict<ConfigValue>, i: nat, j: nat, k: string)
    requires i <= j < |override| && override[j].0 == k && UniqueKeys(override)
    ensures Get(MergeFrom(acc, override, i), k) == Some(Merged(Get(acc, k), override[j].1))
    decreases j - i
  {
    var next := MergeEntry(acc, override[i].0, override[i].1);
    MergeFromUnfold(acc, override, i);
    MergeEntryGet(acc, override[i].0, override[i].1, k);
    if i == j {
      forall j' | i + 1 <= j' < |override| ensures override[j'].0 != k {
        assert override[i].0 != override[j'].0;
      }
      MergeFromAbsent(next, override, i + 1, k);
    } else {
      assert override[i].0 != override[j].0;
      MergeFromPresent(next, override, i + 1, j, k);
    }
  }

  lemma MergeFromUnfold(acc: Dict<ConfigValue>, override: Dict<ConfigValue>, i: nat)
    requires i < |override|
    ensures MergeFrom(acc, override, i) == MergeFrom(MergeEntry(acc, override[i].0, override[i].1), override, i + 1)
  {
  }

  /** Storing one entry changes the value under its key only. */
  lemma MergeEntryGet(acc: Dict<ConfigValue>, k': string, v: ConfigValue, k: string)
    ensures Get(MergeEntry(acc, k', v), k) == if k' == k then Some(Merged(Get(acc, k), v)) else Get(acc, k)
  {
  }

  lemma LastKeyFresh(d: Dict<ConfigValue>, n: nat)
    requires 0 < n <= |d| && UniqueKeys(d)
    ensures d[n - 1].0 !in Keys(d[..n - 1])
  {
  }

  /**
   * `_deep_merge`: the result has the keys of both sides; a key only in
   * `base` keeps its value; a key of `override` gets the override's value,
   * unless both sides hold dictionaries, which are merged recursively.
   */
  lemma DeepMergeSpec(base: Dict<ConfigValue>, override: Dict<ConfigValue>, k: string)
    requires UniqueKeys(base) && UniqueKeys(override)
    ensures UniqueKeys(DeepMerge(base, override))
    ensures k in Keys(DeepMerge(base, override)) <==> k in Keys(base) || k in Keys(override)
    ensures k !in Keys(override) ==> Get(DeepMerge(base, override), k) == Get(base, k)
    ensures k in Keys(override) && !(Get(base, k).Some? && Get(base, k).value.CDict? && Get(override, k).value.CDict?) ==>
      Get(DeepMerge(base, override), k) == Get(override, k)
    ensures k in Keys(override) && Get(base, k).Some? && Get(base, k).value.CDict? && Get(override, k).value.CDict? ==>
      Get(DeepMerge(base, override), k) == Some(CDict(DeepMerge(Get(base, k).value.entries, Get(override, k).value.entries)))
  {
    MergeFromUnique(base, override, 0);
    if k in Keys(override) {
      var j := IndexOf(override, k).value;
      MergeFromPresent(base, override, 0, j, k);
    } else {
      forall j | 0 <= j < |override| ensures override[j].0 != k {
        assert Keys(override)[j] == override[j].0;
      }
      MergeFromAbsent(base, override, 0, k);
    }
  }

  /** Every entry is kept in place or replaced; nothing else appears. */
  lemma PutEntries<V>(d: Dict<V>, k: string, v: V)
    ensures forall i :: 0 <= i < |Put(d, k, v)| ==> Put(d, k, v)[i] in d || Put(d, k, v)[i] == (k, v)
  {
  }

  /** `_clean_dict` after the first `n` entries of `data`. */
  function CleanUpTo(data: Dict<ConfigValue>, n: nat): Dict<ConfigValue>
    requires n <= |data|
    decreases CDict(data), 0, n
  {
    if n == 0 then []
    else
      assert data[n - 1] in data;
      CleanEntry(CleanUpTo(data, n - 1), data[n - 1].0, data[n - 1].1)
  }

  /**
   * One entry of `_clean_dict`: a nested dictionary is cleaned and kept when
   * something is left of it, `None` is dropped, anything else is kept.
   */
  function CleanEntry(acc: Dict<ConfigValue>, k: string, v: ConfigValue): Dict<ConfigValue>
    decreases v, 1
  {
    match v
    case CDict(nested) =>
      var cleaned := CleanUpTo(nested, |nested|);
      if cleaned != [] then Put(acc, k, CDict(cleaned)) else acc
    case CNone => acc
    case _ => Put(acc, k, v)
  }

  /** `_clean_dict(data)`: drop `None` values and the nested dictionaries that end up empty. */
  function CleanDict(data: Dict<ConfigValue>): Dict<ConfigValue> {
    CleanUpTo(data, |data|)
  }

  /** `_clean_dict` as the source runs it: one pass over the entries. */
  method ComputeCleanDict(data: Dict<ConfigValue>) returns (cleaned: Dict<ConfigValue>)
    ensures cleaned == CleanDict(data)
    decreases CDict(data), 0
  {
    cleaned := [];
    var i := 0;
    while i < |data|
      invariant i <= |data|
      invariant cleaned == CleanUpTo(data, i)
    {
      assert data[i] in data;
      cleaned := StoreCleaned(cleaned, data[i].0, data[i].1);
      i := i + 1;
    }
  }

  /** The loop body of `_clean_dict`, recursing into a nested dictionary. */
  method StoreCleaned(cleaned: Dict<ConfigValue>, key: string, value: ConfigValue) returns (updated: Dict<ConfigValue>)
    ensures updated == CleanEntry(cleaned, key, value)
    decreases value, 1
  {
    updated := cleaned;
    if value.CDict? {
      var nested := ComputeCleanDict(value.entries);
      if nested != [] {
        updated := Put(cleaned, key, CDict(nested));
      }
    } else if !value.CNone? {
      updated := Put(cleaned, key, value);
    }
  }

  /** No `None` value and no empty nested dictionary, at any depth. */
  predicate Tidy(d: Dict<ConfigValue>)
    decreases CDict(d)
  {
    forall i :: 0 <= i < |d| ==>
      d[i].1 != CNone && (d[i].1.CDict? ==> d[i].1.entries != [] && Tidy(d[i].1.entries))
  }

  /** Keys are unique at every depth, as in dictionaries read from YAML. */
  predicate WellFormed(d: Dict<ConfigValue>)
    decreases CDict(d)
  {
    UniqueKeys(d) && forall i :: 0 <= i < |d| ==> (d[i].1.CDict? ==> WellFormed(d[i].1.entries))
  }

  lemma {:induction false} CleanUpToTidy(data: Dict<ConfigValue>, n: nat)
    requires n <= |data|
    ensures Tidy(CleanUpTo(data, n)) && WellFormed(CleanUpTo(data, n))
    ensures forall k :: k in Keys(CleanUpTo(data, n)) ==> k in Keys(data[..n])
    decreases CDict(data), n
  {
    if n > 0 {
      CleanUpToTidy(data, n - 1);
      var acc := CleanUpTo(data, n - 1);
      var (k, v) := data[n - 1];
      assert data[n - 1] in data;
      KeysOfPrefix(data, n);
      match v
      case CDict(nested) =>
        CleanUpToTidy(nested, |nested|);
        var cleaned := CleanUpTo(nested, |nested|);
        if cleaned != [] {
          PutEntries(acc, k, CDict(cleaned));
          TidyPut(acc, k, CDict(cleaned));
        }
      case CNone =>
      case _ =>
        PutEntries(acc, k, v);
        TidyPut(acc, k, v);
    }
  }

  lemma TidyPut(d: Dict<ConfigValue>, k: string, v: ConfigValue)
    requires Tidy(d) && WellFormed(d)
    requires v != CNone && (v.CDict? ==> v.entries != [] && Tidy(v.entries) && WellFormed(v.entries))
    requires forall i :: 0 <= i < |Put(d, k, v)| ==> Put(d, k, v)[i] in d || Put(d, k, v)[i] == (k, v)
    ensures Tidy(Put(d, k, v)) && WellFormed(Put(d, k, v))
  {
    var r := Put(d, k, v);
    forall i | 0 <= i < |r|
      ensures r[i].1 != CNone && (r[i].1.CDict? ==> r[i].1.entries != [] && Tidy(r[i].1.entries) && WellFormed(r[i].1.entries))
    {
      if r[i] != (k, v) {
        var j :| 0 <= j < |d| && d[j] == r[i];
      }
    }
  }

  lemma {:induction false} CleanUpToFixes(data: Dict<ConfigValue>, n: nat)
    requires n <= |data| && Tidy(data) && WellFormed(data)
    ensures CleanUpTo(data, n) == data[..n]
    decreases CDict(data), n
  {
    if n > 0 {
      CleanUpToFixes(data, n - 1);
      var (k, v) := data[n - 1];
      assert data[n - 1] in data;
      assert k !in Keys(data[..n - 1]);
      assert data[..n] == data[..n - 1] + [(k, v)];
      if v.CDict? {
        CleanUpToFixes(v.entries, |v.entries|);
        assert v.entries[..|v.entries|] == v.entries;
      }
    }
  }

  /**
   * `_clean_dict` leaves no `None` value and no empty nested dictionary at
   * any depth, keeps only keys it was given, and cleaning twice is cleaning once.
   */
  lemma CleanDictSpec(data: Dict<ConfigValue>)
    ensures Tidy(CleanDict(data))
    ensures forall k :: k in Keys(CleanDict(data)) ==> k in Keys(data)
    ensures CleanDict(CleanDict(data)) == CleanDict(data)
  {
    assert data[..|data|] == data;
    CleanUpToTidy(data, |data|);
    var c := CleanDict(data);
    CleanUpToFixes(c, |c|);
    assert c[..|c|] == c;
  }

  /** What `_clean_dict` keeps of one value: nothing for `None` or a dictionary that cleans to empty. */
  function Kept(v: ConfigValue): Option<ConfigValue> {
    match v
    case CDict(nested) => if CleanDict(nested) != [] then Some(CDict(CleanDict(nested))) else None
    case CNone => None
    case _ => Some(v)
  }

  lemma {:induction false} CleanUpToGet(data: Dict<ConfigValue>, n: nat, k: string)
    requires n <= |data| && UniqueKeys(data)
    ensures k !in Keys(data[..n]) ==> Get(CleanUpTo(data, n), k) == None
    ensures k in Keys(data[..n]) ==> Get(CleanUpTo(data, n), k) == Kept(Get(data, k).value)
  {
    if n > 0 {
      CleanUpToGet(data, n - 1, k);
      KeysOfPrefix(data, n);
      var acc := CleanUpTo(data, n - 1);
      var k', v := data[n - 1].0, data[n - 1].1;
      assert CleanUpTo(data, n) == CleanEntry(acc, k', v);
      if k' == k {
        LastKeyFresh(data, n);
        assert Get(data, k) == Some(v);
        assert Get(acc, k) == None;
        match v
        case CDict(nested) =>
        case CNone =>
        case _ =>
      } else {
        assert Get(CleanEntry(acc, k', v), k) == Get(acc, k);
      }
    }
  }

  /** A key of `_clean_dict`'s result holds what is kept of the input's value; no other key appears. */
  lemma CleanDictGet(data: Dict<ConfigValue>, k: string)
    requires UniqueKeys(data)
    ensures Get(CleanDict(data), k) == if k in Keys(data) then Kept(Get(data, k).value) else None
  {
    assert data[..|data|] == data;
    CleanUpToGet(data, |data|, k);
  }

  /**
   * The environment wins over the YAML file: a plain value the environment
   * sets under a section survives `_clean_dict` and `_deep_merge` and is the
   * configured value, whatever the YAML file held there.
   */
  lemma EnvOverridesYaml(data: Dict<ConfigValue>, env: Dict<ConfigValue>, section: string, key: string, v: ConfigValue)
    requires WellFormed(data) && WellFormed(env)
    requires Get(env, section).Some? && Get(env, section).value.CDict?
    requires Get(Get(env, section).value.entries, key) == Some(v) && v != CNone && !v.CDict?
    ensures Get(DeepMerge(data, CleanDict(env)), section).Some?
    ensures Get(DeepMerge(data, CleanDict(env)), section).value.CDict?
    ensures Get(Get(DeepMerge(data, CleanDict(env)), section).value.entries, key) == Some(v)
  {
    var es := Get(env, section).value.entries;
    var i :| 0 <= i < |env| && env[i].0 == section;
    assert WellFormed(es);
    CleanDictGet(es, key);
    var ces := CleanDict(es);
    assert ces != [];
    CleanDictGet(env, section);
    assert Get(CleanDict(env), section) == Some(CDict(ces));
    assert env[..|env|] == env;
    CleanUpToTidy(env, |env|);
    assert es[..|es|] == es;
    CleanUpToTidy(es, |es|);
    var overrides := CleanDict(env);
    DeepMergeSpec(data, overrides, section);
    var current := Get(data, section);
    if current.Some? && current.value.CDict? {
      var j :| 0 <= j < |data| && data[j].0 == section;
      assert WellFormed(current.value.entries);
      DeepMergeSpec(current.value.entries, ces, key);
    }
  }
}
