/** The option records of alchemy/loader.py (`RepoOptions`, `CacheOptions`,
    `ModelOptions`), their `asdict` views, and the two filters that pick out
    the keyword arguments handed to the repository reader and to the chat model. */
module LoaderOptions {
  import opened Wrappers

  /** A Python value as far as the options need one: enough to say what
      `asdict` produces and which values are truthy. Python floats are kept as
      exact reals; no rounding is modelled. */
  datatype Value =
    | NoneV
    | BoolV(b: bool)
    | IntV(i: int)
    | FloatV(r: real)
    | StrV(s: string)
    | ListV(items: seq<Value>)
    | TupleV(items: seq<Value>)
    | DictV(entries: seq<(string, Value)>)
    | EnumV(name: string)

  /** `bool(v)`: None, False, zero, and empty strings and containers are falsy;
      enum members are truthy. A `DictV` is taken to hold distinct keys. */
  predicate Truthy(v: Value) {
    match v
    case NoneV => false
    case BoolV(b) => b
    case IntV(i) => i != 0
    case FloatV(r) => r != 0.0
    case StrV(s) => |s| > 0
    case ListV(items) => |items| > 0
    case TupleV(items) => |items| > 0
    case DictV(entries) => |entries| > 0
    case EnumV(_) => true
  }

  /* ---------------------------------------------------------------------
     RepoOptions
     --------------------------------------------------------------------- */

  /** `GithubRepositoryReader.FilterType` */
  datatype FilterType = Include | Exclude

  /** `(names, FilterType)` as the reader's filter arguments. */
  datatype Filter = Filter(names: seq<string>, kind: FilterType)

  datatype RepoOptions = RepoOptions(
    owner: string,
    repo: string,
    branch: string,
    commitSha: Option<string>,
    filterDirectories: Option<Filter>,
    filterFileExtensions: Option<Filter>,
    verbose: bool,
    concurrentRequests: int)

  /** `DEFAULT_DIRECTORY_FILTERS` */
  const DefaultDirectoryFilters: Filter := Filter([".git", ".yarn", "node_modules"], Exclude)

  /** `DEFAULT_FILE_EXT_FILTERS` */
  const DefaultFileExtFilters: Filter := Filter([".zip"], Exclude)

  /** `RepoOptions(owner=owner, repo=repo)`: every other field at its default. */
  function DefaultRepoOptions(owner: string, repo: string): RepoOptions {
    RepoOptions(owner, repo, "main", None, Some(DefaultDirectoryFilters), Some(DefaultFileExtFilters), true, 10)
  }

  function FilterTypeValue(t: FilterType): Value {
    match t
    case Include => EnumV("INCLUDE")
    case Exclude => EnumV("EXCLUDE")
  }

  /** A filter as `asdict` copies it: the tuple stays a tuple, the list a list. */
  function FilterValue(f: Option<Filter>): Value {
    match f
    case None => NoneV
    case Some(Filter(names, kind)) =>
      TupleV([ListV(seq(|names|, i requires 0 <= i < |names| => StrV(names[i]))), FilterTypeValue(kind)])
  }

  function OptionalStr(s: Option<string>): Value {
    match s
    case None => NoneV
    case Some(x) => StrV(x)
  }

  /** The fields of `RepoOptions`, which `asdict` uses as keys. */
  datatype RepoField =
    | Owner | Repo | Branch | CommitSha | FilterDirectories | FilterFileExtensions
    | ReaderVerbose | ConcurrentRequests

  /** The key `asdict` gives each field. */
  function RepoFieldName(f: RepoField): string {
    match f
    case Owner => "owner"
    case Repo => "repo"
    case Branch => "branch"
    case CommitSha => "commit_sha"
    case FilterDirectories => "filter_directories"
    case FilterFileExtensions => "filter_file_extensions"
    case ReaderVerbose => "verbose"
    case ConcurrentRequests => "concurrent_requests"
  }

  const RepoFields: set<RepoField> :=
    {Owner, Repo, Branch, CommitSha, FilterDirectories, FilterFileExtensions, ReaderVerbose, ConcurrentRequests}

  /** Distinct fields have distinct keys, so keying by field loses nothing. */
  lemma RepoFieldNamesDistinct(f: RepoField, g: RepoField)
    requires f != g
    ensures RepoFieldName(f) != RepoFieldName(g)
  {
  }

  /** `getattr(repo_opts, f)` as `asdict` copies it. */
  function RepoValue(ro: RepoOptions, f: RepoField): Value {
    match f
    case Owner => StrV(ro.owner)
    case Repo => StrV(ro.repo)
    case Branch => StrV(ro.branch)
    case CommitSha => OptionalStr(ro.commitSha)
    case FilterDirectories => FilterValue(ro.filterDirectories)
    case FilterFileExtensions => FilterValue(ro.filterFileExtensions)
    case ReaderVerbose => BoolV(ro.verbose)
    case ConcurrentRequests => IntV(ro.concurrentRequests)
  }

  /** `asdict(repo_opts)`, keyed by field. */
  function RepoAsDict(ro: RepoOptions): (d: map<RepoField, Value>)
    ensures d.Keys == RepoFields
  {
    map f | f in RepoFields :: RepoValue(ro, f)
  }

  /** The fields the repository reader does not accept: the ref is passed to
      `load_data` instead. */
  const RefFields: set<RepoField> := {CommitSha, Branch}

  /** `github_opts = asdict(repo_opts)` followed by `pop("commit_sha")` and
      `pop("branch")`: the keyword arguments of `GithubRepositoryReader`. */
  function ReaderKwargs(ro: RepoOptions): (kw: map<RepoField, Value>)
    ensures kw.Keys == {Owner, Repo, FilterDirectories, FilterFileExtensions, ReaderVerbose, ConcurrentRequests}
    ensures forall k :: k in kw ==> kw[k] == RepoAsDict(ro)[k]
  {
    RepoAsDict(ro) - RefFields
  }

  /** The reader's arguments do not depend on the ref, and the ref fields
      together with them give back all of `asdict(repo_opts)`. */
  lemma ReaderKwargsIgnoreRef(ro: RepoOptions, branch: string, commitSha: Option<string>)
    ensures ReaderKwargs(ro.(branch := branch, commitSha := commitSha)) == ReaderKwargs(ro)
    ensures ReaderKwargs(ro) + map[CommitSha := OptionalStr(ro.commitSha), Branch := StrV(ro.branch)]
            == RepoAsDict(ro)
  {
    ReaderKwargsKeepRest(ro, branch, commitSha);
    ReaderKwargsAddRef(ro);
  }

  lemma ReaderKwargsKeepRest(ro: RepoOptions, branch: string, commitSha: Option<string>)
    ensures ReaderKwargs(ro.(branch := branch, commitSha := commitSha)) == ReaderKwargs(ro)
  {
    var ro' := ro.(branch := branch, commitSha := commitSha);
    assert forall f :: f !in RefFields ==> RepoValue(ro, f) == RepoValue(ro', f);
  }

  lemma ReaderKwargsAddRef(ro: RepoOptions)
    ensures ReaderKwargs(ro) + map[CommitSha := OptionalStr(ro.commitSha), Branch := StrV(ro.branch)]
            == RepoAsDict(ro)
  {
    assert ReaderKwargs(ro).Keys + RefFields == RepoFields;
  }

  /* ---------------------------------------------------------------------
     CacheOptions
     --------------------------------------------------------------------- */

  /** `CacheOptions`. The directory is kept as text; see Cache.CacheDirectory. */
  datatype CacheOptions = CacheOptions(path: string, forceUpdate: bool, maxAge: int)

  /** `CacheOptions()` */
  const DefaultCacheOptions: CacheOptions := CacheOptions("~/.alchemy", false, 60)

  /* ---------------------------------------------------------------------
     ModelOptions and the chat model's arguments
     --------------------------------------------------------------------- */

  /** `ModelOptions`: every field may hold any value the chat model accepts. */
  datatype ModelOptions = ModelOptions(
    cache: Value,
    verbose: Value,
    modelName: Value,
    temperature: Value,
    maxTokens: Value,
    topP: Value,
    frequencyPenalty: Value,
    presencePenalty: Value,
    n: Value,
    bestOf: Value,
    modelKwargs: Value,
    openaiApiKey: Value,
    batchSize: Value,
    requestTimeout: Value,
    logitBias: Value,
    maxRetries: Value,
    streaming: Value)

  /** `ModelOptions()`: all None except the two flags, which are False. */
  const DefaultModelOptions: ModelOptions :=
    ModelOptions(NoneV, BoolV(false), NoneV, NoneV, NoneV, NoneV, NoneV, NoneV, NoneV,
                 NoneV, NoneV, NoneV, NoneV, NoneV, NoneV, NoneV, BoolV(false))

  /** The fields of `ModelOptions`, which `asdict` uses as keys. */
  datatype ModelField =
    | ChatCache | ChatVerbose | ModelName | Temperature | MaxTokens | TopP | FrequencyPenalty
    | PresencePenalty | N | BestOf | ModelKwargs | OpenaiApiKey | BatchSize | RequestTimeout
    | LogitBias | MaxRetries | Streaming

  /** The key `asdict` gives each field, which is also the keyword the chat
      model takes. */
  function ModelFieldName(f: ModelField): string {
    match f
    case ChatCache => "cache"
    case ChatVerbose => "verbose"
    case ModelName => "model_name"
    case Temperature => "temperature"
    case MaxTokens => "max_tokens"
    case TopP => "top_p"
    case FrequencyPenalty => "frequency_penalty"
    case PresencePenalty => "presence_penalty"
    case N => "n"
    case BestOf => "best_of"
    case ModelKwargs => "model_kwargs"
    case OpenaiApiKey => "openai_api_key"
    case BatchSize => "batch_size"
    case RequestTimeout => "request_timeout"
    case LogitBias => "logit_bias"
    case MaxRetries => "max_retries"
    case Streaming => "streaming"
  }

  const ModelFields: set<ModelField> :=
    {ChatCache, ChatVerbose, ModelName, Temperature, MaxTokens, TopP, FrequencyPenalty,
     PresencePenalty, N, BestOf, ModelKwargs, OpenaiApiKey, BatchSize, RequestTimeout,
     LogitBias, MaxRetries, Streaming}

  /** Distinct fields have distinct keys, so keying by field loses nothing. */
  lemma ModelFieldNamesDistinct(f: ModelField, g: ModelField)
    requires f != g
    ensures ModelFieldName(f) != ModelFieldName(g)
  {
  }

  /** `getattr(model_opts, f)` */
  function ModelValue(mo: ModelOptions, f: ModelField): Value {
    match f
    case ChatCache => mo.cache
    case ChatVerbose => mo.verbose
    case ModelName => mo.modelName
    case Temperature => mo.temperature
    case MaxTokens => mo.maxTokens
    case TopP => mo.topP
    case FrequencyPenalty => mo.frequencyPenalty
    case PresencePenalty => mo.presencePenalty
    case N => mo.n
    case BestOf => mo.bestOf
    case ModelKwargs => mo.modelKwargs
    case OpenaiApiKey => mo.openaiApiKey
    case BatchSize => mo.batchSize
    case RequestTimeout => mo.requestTimeout
    case LogitBias => mo.logitBias
    case MaxRetries => mo.maxRetries
    case Streaming => mo.streaming
  }

  /** `asdict(model_opts)`, keyed by field. */
  function ModelAsDict(mo: ModelOptions): (d: map<ModelField, Value>)
    ensures d.Keys == ModelFields
  {
    map f | f in ModelFields :: ModelValue(mo, f)
  }

  /** `{k: v for k, v in asdict(model_opts).items() if v}` as written: only
      truthy values reach the chat model. */
  function ChatKwargsAsWritten(mo: ModelOptions): (kw: map<ModelField, Value>)
    ensures kw.Keys <= ModelFields
    ensures forall k :: k in kw ==> Truthy(kw[k])
  {
    var d := ModelAsDict(mo);
    map k | k in d && Truthy(d[k]) :: d[k]
  }

  /** A proposed filter, not used by the index builders: drop the options
      left at None, so that the chat model applies its own defaults to those
      and only those. */
  function ChatKwargs(mo: ModelOptions): (kw: map<ModelField, Value>)
    ensures kw.Keys <= ModelFields
    ensures forall k :: k in kw ==> kw[k] != NoneV
  {
    var d := ModelAsDict(mo);
    map k | k in d && d[k] != NoneV :: d[k]
  }

  /** Both filters pass values through unchanged; they differ only in which
      keys they keep, and the truthy filter keeps a subset: it also drops
      every explicit False, zero and empty value. */
  lemma ChatFiltersCompared(mo: ModelOptions)
    ensures forall k :: k in ChatKwargs(mo) ==> ChatKwargs(mo)[k] == ModelAsDict(mo)[k]
    ensures forall k :: k in ChatKwargsAsWritten(mo) ==> k in ChatKwargs(mo) && ChatKwargsAsWritten(mo)[k] == ChatKwargs(mo)[k]
    ensures forall k :: k in ModelFields ==>
      (k in ChatKwargsAsWritten(mo) <==> Truthy(ModelAsDict(mo)[k])) &&
      (k in ChatKwargs(mo) <==> ModelAsDict(mo)[k] != NoneV)
  {
  }

  /** The defaults send the chat model nothing as written; the proposed filter
      passes only the two explicit False flags. */
  lemma DefaultChatKwargs()
    ensures ChatKwargsAsWritten(DefaultModelOptions) == map[]
    ensures ChatKwargs(DefaultModelOptions) == map[ChatVerbose := BoolV(false), Streaming := BoolV(false)]
  {
    DefaultAsWrittenKeys();
    DefaultIntendedKeys();
  }

  lemma DefaultAsWrittenKeys()
    ensures ChatKwargsAsWritten(DefaultModelOptions).Keys == {}
  {
  }

  lemma DefaultIntendedKeys()
    ensures ChatKwargs(DefaultModelOptions).Keys == {ChatVerbose, Streaming}
  {
  }

  /** The options of the bot's edit handler (model "gpt-4", temperature 0.2,
      request timeout 600). */
  const BotModelOptions: ModelOptions :=
    DefaultModelOptions.(modelName := StrV("gpt-4"), temperature := FloatV(0.2), requestTimeout := IntV(600))

  /** With the bot's options the truthy filter passes exactly the three it sets. */
  lemma BotChatKwargs()
    ensures ChatKwargsAsWritten(BotModelOptions) == map[ModelName := StrV("gpt-4"), Temperature := FloatV(0.2), RequestTimeout := IntV(600)]
  {
    BotKeys();
  }

  lemma BotKeys()
    ensures ChatKwargsAsWritten(BotModelOptions).Keys == {ModelName, Temperature, RequestTimeout}
  {
  }

  /** A temperature of 0.0 is falsy, so as written it never reaches the chat
      model, which then samples at its own default temperature; the proposed
      filter passes it. */
  lemma ZeroTemperatureDropped(mo: ModelOptions)
    requires mo.temperature == FloatV(0.0)
    ensures Temperature !in ChatKwargsAsWritten(mo)
    ensures Temperature in ChatKwargs(mo) && ChatKwargs(mo)[Temperature] == FloatV(0.0)
  {
    assert ModelAsDict(mo)[Temperature] == FloatV(0.0);
  }
}
