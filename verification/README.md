# alchemy: the pure core, in Dafny

alchemy is a GitHub bot. It reads an issue or a review comment, asks a
language model to edit the repository, and turns the reply into commits.
Around the network calls sit three small pieces of pure logic, and this
project models them and proves their properties.

- **Permalink targets** (`_get_targets_from_body` and `_target_regex` in
  `alchemy/github.py`). The bot scans a text line by line. Each line that starts
  with `https://github.com/<owner>/<repo>/blob/<commit>/<path>#L<start>[-L<end>]`
  becomes an edit target `(path, commit, (start, end))`. The model replaces the
  regular expression with a hand-written matcher (`Targets.MatchPermalink`),
  proved sound and complete against a renderer of the same shape. The scan uses
  this matcher with the host's dot taken literally. The pattern as written,
  whose unescaped dot also accepts other hosts, is
  `Targets.MatchPermalinkAsWritten` (see "Findings"). The rule for a review
  comment's target is modelled as well (`Targets.PrCommentTarget`).
- **The reply splitter** (the loop over `resp.splitlines()` in
  `_make_freeform_changes`). A line starting with `%%%` opens an output file
  named by the rest of the line, stripped. Every other line, followed by a
  newline, is meant to be appended to the last file opened. As written, that
  append assigns to a field of a namedtuple and raises `AttributeError`; this
  loop is `Response.SplitFilesAsWritten` (see "Findings"). `Response.SplitFiles`
  is the loop with the append made to work. It returns either the files or the
  `IndexError`/`ValueError` that loop raises. Lemmas prove three things about
  it: the files are exactly the header-delimited pieces of the reply, it fails
  exactly at the first bad line, and a reply written in the prompt's own format
  splits back into its files.
- **The cache** (`alchemy/loader.py`). This part covers:
  - the cache file name `<owner>-<repo>-<ref>[.<ext>]` and where `pathlib`
    puts it;
  - the staleness rule;
  - the hit-or-rebuild decisions of `_load_documents` and the three index
    builders;
  - the filtering of options passed to the repository reader and to the chat
    model.

Modules:
- `Wrappers` holds `Option` and `Result`.
- `Text` holds the Python string operations used: `isdigit`/`int`,
  `isspace`/`strip`, `split(sep)`, `splitlines`, and newline joining.
- `Seqs` holds the order-preserving filter that a generator with one `yield`
  per item amounts to.
- `Targets` and `Response` model `alchemy/github.py`.
- `LoaderOptions` and `Cache` model `alchemy/loader.py`. The `asdict`
  dictionaries are keyed by an enumeration of the dataclass fields, and
  `RepoFieldName` and `ModelFieldName` give each field's Python key.

## Model

| member | source | states |
|---|---|---|
| Targets.MatchPermalink | alchemy/github.py:41 | A match is a well-formed permalink: owner, repo and commit non-empty and without `/`, path non-empty and without `#`, start a decimal numeral, end present only after `-L` and a digit. The line is exactly its rendering followed by the unmatched rest. |
| Targets.MatchPermalinkComplete | alchemy/github.py:41 | Every rendered well-formed permalink is matched, and the pieces found are the ones it was rendered from. The decomposition is unique, as the regex's first-stop segments and greedy digits make it. |
| Targets.MatchPermalinkAsWritten | alchemy/github.py:41 | As written, a match is a well-formed permalink whose host is `github`, then any character but a newline, then `com`. |
| Targets.UnescapedDotAcceptsOtherHosts | alchemy/github.py:41 | The pattern as written accepts `https://github<x>com/...` for any character `x` other than a newline in place of the dot. The corrected matcher rejects it. |
| Targets.AsWrittenAgreesOnDot | alchemy/github.py:41 | The two matchers agree on every line that has `.` at the host's dot position. |
| Targets.ToTarget | alchemy/github.py:67-70 | The target keeps the permalink's path and commit. Both block ends are non-negative, and without `-L<end>` the block is one line long. `Targets.TargetOfNumerals` shows the ends are the numbers the numerals spell. |
| Targets.ParseLine | alchemy/github.py:66-70 | With the corrected host matcher, a line yields a target only if it begins with `https://github.com/`, so the match is anchored. The path is non-empty and has no `#`, the commit is a non-empty segment without `/`, and both block ends are non-negative. |
| Targets.ParsePermalinkLine | alchemy/github.py:66-70 | The permalink to lines `start`..`end`, followed by any text that cannot extend the match, yields `(path, commit, (start, end))`. Without `-L<end>` it yields `(path, commit, (start, start + 1))`. Trailing text is ignored. |
| Targets.EndNotCheckedAgainstStart | alchemy/github.py:68-69 | `#L7-L4` gives the block `(7, 4)`: the end is never checked against the start. |
| Targets.GetTargetsFromBody | alchemy/github.py:64-70 | There are at most as many targets as lines. Every target has a non-empty path without `#`, a commit that is one path segment, and non-negative block ends. `Targets.TargetsFollowLines` ties each target to its line. |
| Targets.TargetsFollowLines | alchemy/github.py:64-70 | The targets of a body correspond one to one, in order, with the lines that match. There is at most one per line and none for any other line. |
| Targets.TargetsOfJoinedLines | alchemy/github.py:65 | Lines joined with newlines are scanned exactly as the separate lines. |
| Targets.PrCommentTarget | alchemy/github.py:167-172 | A null `line` fails, standing for the `TypeError` of `int(None)`, whatever `start_line` is. Otherwise the review comment's path and commit are carried over, and the block is `(start_line, line)`. A missing or zero `start_line` falls back to `line`. |
| Targets.CommentAgreesWithPermalink | alchemy/github.py:167-172 | An event whose `start_line` and `line` are `s` and `e` (with `s` non-zero) and the permalink `#Ls-Le` to the same file and commit give the same edit target. |
| Targets.LeadingZeroSameTarget | alchemy/github.py:68 | `int()` ignores leading zeros: adding a `0` before the start line's digits (`#L07` for `#L7`) gives the same target. |
| Targets.SingleLineConventions | alchemy/github.py:69 | A single-line permalink gives a block one line long, `(s, s + 1)`. A single-line comment gives `(l, l)`. |
| Text.DecimalRoundTrip | alchemy/github.py:68 | `int` of the decimal numeral of `n` is `n`. |
| Text.SplitJoinLines | alchemy/github.py:65 | `splitlines` of lines joined with `\n` gives back the lines, when none contains a line break. |
| Text.Strip | alchemy/github.py:124 | `strip()` gives a trimmed string that occurs in the input, with only whitespace around it. |
| Text.JoinSplit | alchemy/github.py:123 | Joining the pieces of `split(sep)` with `sep` restores the string. |
| Response.HeaderKeyOfHeader | alchemy/github.py:123 | A header line unpacks into two pieces iff `%%%` does not occur again after its first three characters. The key is then everything after the marker. |
| Response.StepShape | alchemy/github.py:122-126 | One iteration of `Response.Step` fails only with the index of its own line. On success, a header adds exactly one file and a content line adds none. |
| Response.SplitFilesShape | alchemy/github.py:119-126 | For `Response.SplitFiles`, the loop with the append corrected, an error names a line of the reply, and there are never more files than lines. `Response.SplitFilesDescribes` and `Response.SplitOkIffNoBadLine` characterise the result fully. |
| Response.SplitResponseShape | alchemy/github.py:121 | `Response.SplitResponse` runs the loop over `splitlines()` of the reply, so an error names one of its lines. `Response.SplitResponseFormatted` gives the round trip. |
| Response.SplitFilesDescribes | alchemy/github.py:121-126 | On success there is one file per header line, in order. Each path is the header's text after `%%%`, stripped. Each content is every following line up to the next header, each followed by `\n`. |
| Response.SplitOkIffNoBadLine | alchemy/github.py:121-126 | The loop succeeds iff no line is bad. A bad line is a content line before any header, or a header whose split does not give two pieces. |
| Response.SplitErrorIsFirstBadLine | alchemy/github.py:121-126 | On failure the error names the first bad line. It is `IndexError` exactly when that line is line 0 and is content, otherwise `ValueError`. |
| Response.SplitKeepsFileOpen | alchemy/github.py:124-126 | Once the loop is past a line, some file is open. |
| Response.SplitHeader | alchemy/github.py:122-124 | For a path that is already trimmed and holds no `%%%`, a header `%%% <path>` opens one new, empty file with exactly that path. Other paths are covered by `Response.SplitFilesDescribes`: for example, `%%%  a` opens `a`. |
| Response.SplitBody | alchemy/github.py:125-126 | Content lines are appended, in order and each followed by `\n`, to the last file. Earlier files do not change. |
| Response.SplitFormatted | alchemy/github.py:47-52 | A reply in the prompt's format (`%%% <path>` then the file's lines) splits back into exactly those files. This needs paths free of `%%%` and surrounding space, and body lines not starting with `%%%`. |
| Response.SplitResponseFormatted | alchemy/github.py:121 | The same round trip over the reply's text, when no path or line holds a line break. |
| Response.AsWrittenShape | alchemy/github.py:119-126 | For `Response.SplitFilesAsWritten`, the loop as written, an error names a line of the reply, and a surviving reply yields one file per line. |
| Response.AsWrittenRejectsContent | alchemy/github.py:119-126 | With the namedtuple `+=` as written, a reply survives only if every line is a header, and then every file is empty. |
| Response.AsWrittenFailsOnFirstContent | alchemy/github.py:126 | `%%% <path>` followed by one content line: as written this raises at line 1, while the corrected loop yields the file with that line. |
| LoaderOptions.RepoFieldNamesDistinct | alchemy/loader.py:62-70 | The eight `RepoOptions` fields have distinct `asdict` keys, so a dictionary keyed by field is one keyed by name. |
| LoaderOptions.RepoAsDict | alchemy/loader.py:61-70 | `asdict(repo_opts)` has exactly the eight `RepoOptions` fields as keys. |
| LoaderOptions.ReaderKwargs | alchemy/loader.py:120-122 | The reader gets exactly `owner`, `repo`, `filter_directories`, `filter_file_extensions`, `verbose` and `concurrent_requests`, with the values of `asdict(repo_opts)`. |
| LoaderOptions.ReaderKwargsIgnoreRef | alchemy/loader.py:120-125 | The reader's arguments do not depend on the branch or commit. Those two, added back, give all of `asdict(repo_opts)`. |
| LoaderOptions.ModelFieldNamesDistinct | alchemy/loader.py:42-58 | The seventeen `ModelOptions` fields have distinct `asdict` keys, which are also the chat model's keyword names. |
| LoaderOptions.ChatKwargsAsWritten | alchemy/loader.py:144 | As written, the chat model gets only fields of `ModelOptions`, and only truthy values. |
| LoaderOptions.ChatKwargs | alchemy/loader.py:144 | The proposed filter passes the fields of `ModelOptions` whose value is not None. It is a proposal only: the index builders use `ChatKwargsAsWritten`, as the source does. |
| LoaderOptions.ChatFiltersCompared | alchemy/loader.py:144 | Both filters pass values unchanged. A field passes as written iff its value is truthy, and passes the proposed filter iff it is not None. The first filter's result is contained in the second's. |
| LoaderOptions.DefaultChatKwargs | alchemy/loader.py:42-58 | `ModelOptions()` sends nothing as written. The proposed filter sends only `verbose=False` and `streaming=False`. |
| LoaderOptions.BotChatKwargs | alchemy/github.py:107 | The bot's options send exactly `model_name`, `temperature` and `request_timeout`. |
| LoaderOptions.ZeroTemperatureDropped | alchemy/loader.py:144 | As written, `temperature=0.0` never reaches the chat model. The proposed filter passes it. |
| Cache.CacheName | alchemy/loader.py:80-83 | The name is `<owner>-<repo>-<ref>`, where the ref is the commit if non-empty and the branch otherwise. `Cache.CacheNameRoundTrip` shows when the name determines them. |
| Cache.CacheNameIgnoresReaderOptions | alchemy/loader.py:80-83 | The name depends only on owner, repo and ref. The reader options do not enter it, nor does the branch once a non-empty commit is given. |
| Cache.CacheNameRoundTrip | alchemy/loader.py:80-83 | When owner and repo contain no `-`, the name `<owner>-<repo>-<ref>` determines owner, repo and ref. The ref is the commit if non-empty, else the branch. |
| Cache.CacheNamesCollide | alchemy/loader.py:81-82 | Owner `a-b` with repo `c` and owner `a` with repo `b-c` share a cache name. |
| Cache.CacheFileName | alchemy/loader.py:88-89 | The cache name plus `.<ext>` for a non-empty extension. `Cache.CacheFileNameSuffix` shows that distinct suffixes give distinct names. |
| Cache.CacheFileNameSuffix | alchemy/loader.py:89 | `.<ext>` is appended only for a non-empty extension. Different suffixes give different file names. |
| Cache.CachePathInDirectory | alchemy/loader.py:86-91 | For `Cache.CachePath`: unless the owner starts with `/`, the path stays lexically under the cache directory: same root, and the directory's components come first. A `..` component in the name can still lead outside once resolved. An owner starting with `/` makes the name rooted, and `pathlib` then drops the directory. |
| Cache.CachePathOneComponent | alchemy/loader.py:86-91 | With no `/` in owner, repo, ref or extension, the path is the cache directory plus exactly one component, the file name. |
| Cache.CachePathNests | alchemy/loader.py:90 | A ref `a/b` puts the file `b[.ext]` in a subdirectory `<owner>-<repo>-a` of the cache directory. |
| Cache.CacheIsUsable | alchemy/loader.py:94-95 | An entry is usable if it is younger than `max_age` or updates are not forced. `Cache.UsableTruthTable` spells out the cases. |
| Cache.UsableTruthTable | alchemy/loader.py:94-95 | Without `force_update` an entry of any age is usable. With it, exactly the entries younger than `max_age` are, so forcing does not bypass a fresh entry. Usability is monotone in age. |
| Cache.GetCache | alchemy/loader.py:98-102 | Returns the bytes iff the file exists and is usable, and nothing otherwise. |
| Cache.PutCache | alchemy/loader.py:105-111 | Writes the bytes at the cache path with age zero. No other file changes. |
| Cache.LoadDocuments | alchemy/loader.py:114-128 | The repository is read iff the documents entry is missing, unusable or empty. On a hit the unpickled entry is returned and nothing is written. On a miss the reader gets `ReaderKwargs` and the ref, and the pickled result is written back. |
| Cache.LoadDocumentsTwice | alchemy/loader.py:114-128 | A load right after a fetch is served from the cache with the same documents and writes nothing. This needs the pickle to round-trip and be non-empty, and a fresh entry to be usable. |
| Cache.ForcedLoadAlwaysFetches | alchemy/loader.py:95 | With `force_update` and `max_age <= 0`, every load reads the repository, provided no entry has a negative age. An entry whose modification time lies in the future has a negative age, is usable, and gives a hit. |
| Cache.CreateSimpleVectorIndex | alchemy/loader.py:141-154 | The index is rebuilt iff its entry is missing, unusable or empty. On a hit it is loaded and nothing is written. On a miss it is built from the loaded documents under the truthy model options and written back. |
| Cache.BotIndexOptions | alchemy/loader.py:144 | Under the bot's options a rebuilt index is built with exactly `model_name`, `temperature` and `request_timeout`. |
| Cache.SimpleVectorIndexTwice | alchemy/loader.py:148-152 | A second call right after a rebuild is served from the cache, returns the same index and writes nothing. This needs the saved index to load back and be non-empty, and a fresh entry to be usable (`max_age > 0` or no `force_update`). With `force_update` and `max_age` 0, the second call rebuilds. |
| Cache.SimpleVectorIndexWrites | alchemy/loader.py:148-152 | For every owner, repo and ref, including a branch such as `feature/x`, the documents file and the index file are distinct. After a rebuild both are present, and every other file is unchanged. |
| Cache.CacheFilesDistinct | alchemy/loader.py:86-91 | Two different non-empty extensions without `/` give different cache paths, whatever `/` the owner, repo or ref holds: the last components of the two paths differ. |
| Cache.DefaultOptionsIgnoreAge | alchemy/loader.py:74-77 | Under `CacheOptions()` (`force_update=False`) the age never matters: a load is served from the cache iff the documents entry exists and is non-empty. |
| Cache.CreateRebuiltIndex | alchemy/loader.py:170-178 | The list and knowledge-graph builders always rebuild, under the truthy model options. They write the index under their own extension on top of what loading the documents wrote. |
| Cache.ListIndexIgnoresCache | alchemy/loader.py:174-202 | The list builder (line 174) and the knowledge-graph builder (line 202) ignore even a fresh, usable cached index, where the simple vector builder reuses its own. |

## Left out

- GitHub REST work is not modelled: branch, tree, commit and pull-request creation, review replies, `get_repo` and `get_branch`. These are calls into a library whose behaviour is not visible here.
- The webhook dispatch, the Flask app in `alchemy/api.py` and the handlers `handle_issues_opened`, `handle_pr_comment` and `_make_changes` are not modelled as wholes. They are framework plumbing, and some of their calls do not match the signatures they call. Only their pure rules are modelled: the target rule and the reply loop.
- `_make_targeted_changes` is not modelled, because it is an empty stub.
- The language model, the index library and the GitHub reader are not modelled. They appear as function parameters: `fetch`, `build`, `save` and `load`, and `dumps`/`loads` for pickle.
- File I/O, `os.makedirs`, the clock and `stat()` are left out. The file system is a map from paths to entries. Age is whole seconds, and a written entry has age zero. Text-mode and binary-mode writes are not told apart.
- `expanduser` is not modelled, because it reads the environment. The cache directory is a parameter, already expanded, so `CacheOptions.path` is carried but not interpreted.
- `pathlib` is modelled only as far as joining a name needs it. The name is split on `/`, empty and `.` components are dropped, and a rooted name replaces the directory. POSIX's special leading `//` is not modelled. `..` components are kept, as `pathlib` keeps them, so a ref such as `x/../../y` gives a path that begins with the cache directory's components but resolves outside it.
- `Path(path_str)` in the permalink target is not modelled: the path is kept as the matched text.
- `\d` and `int()` are modelled on ASCII digits only. Python's `\d` on `str` patterns also matches other Unicode decimal digits.
- Floating-point values are modelled as exact reals. Dictionary-valued options are lists of entries, taken to hold distinct keys. Key order in `asdict` and keyword dictionaries is not modelled.
- `cache_opts or CacheOptions()` and `model_opts or ModelOptions()` in `create_knowledge_graph_index` are not modelled. For an options instance they have no effect, because a dataclass instance is always truthy. A `None` passed there would be replaced by the defaults. The model's types do not admit `None`, so the options given are used.
- Logging is not modelled. Neither are the module-level environment assertions, nor the tests, which need network and language-model access.
- Targets.ParseLine: the scan (`ParseLine`, `TargetsOfLines`, `GetTargetsFromBody`) uses the corrected matcher `Targets.MatchPermalink`, not the pattern as written. The two differ only on lines with a character other than `.` or a newline at the host's dot (`Targets.AsWrittenAgreesOnDot`).
- Response.SplitFiles: the splitter used by the round-trip lemmas is the loop with its append corrected. The loop as written is `Response.SplitFilesAsWritten`, which raises on every content line.
- Targets.PrCommentTarget: the `KeyError` for a missing `line` or `start_line` key, and a non-integer `line`, are not modelled. Both values are taken as integers or null. The source reads `start_line` and `line` from the top of the event payload (`event[...]`), and path and commit from `comment`. The model takes all four as parameters. The source wraps a permalink's path in `Path(...)` but keeps a comment's path as a string, so there the two targets compare unequal. The model drops `Path`, so `Targets.CommentAgreesWithPermalink` holds of the model only.
- Cache.ForcedLoadAlwaysFetches: stated only for stores without negative ages. A modification time in the future gives a negative age, and such an entry stays usable even when forced with `max_age <= 0`.
- Cache.SimpleVectorIndexTwice: stated only when a fresh entry is usable. With `force_update` and `max_age` 0, every call rebuilds.
- Response.SplitHeader: stated only for trimmed paths without `%%%`. A header's path is stripped, so `%%%  a` opens `a`. `Response.SplitFilesDescribes` covers every header.
- Cache.CreateSimpleVectorIndex: the chat model is built before the cache lookup, so options it rejects raise even on a cache hit. The model calls `build` only on a miss, because the chat model's checks are not visible here. The same holds for `Cache.CreateRebuiltIndex`.
- Text.SplitJoinLines: the round trip is stated only for lines without line breaks. `splitlines` on text with `\r\n` or other breaks is characterised only by its lines being break-free.

## Findings

| source | as written | input that shows it | evidently intended | confidence | as-written member | corrected member |
|---|---|---|---|---|---|---|
| alchemy/github.py:41 | the `.` in `github.com` is an unescaped regex dot, so any character but a newline matches there | `https://githubXcom/o/r/blob/c/p#L1` is accepted (lemma `Targets.UnescapedDotAcceptsOtherHosts`) | only `github.com` permalinks are targets | not executed; high | Targets.MatchPermalinkAsWritten | Targets.MatchPermalink |
| alchemy/github.py:126 | `output_files[-1].content += ...` assigns to a field of a namedtuple, which raises `AttributeError` | `%%% a.py` followed by `x = 1` raises at line 1 (lemma `Response.AsWrittenFailsOnFirstContent`) | the line and a newline are appended to the last file's content | not executed; high | Response.SplitFilesAsWritten | Response.SplitFiles |
| alchemy/loader.py:144 | `if v` keeps only truthy option values, so explicit `False`, `0` and `0.0` are dropped | `ModelOptions(temperature=0.0)` sends no temperature, and the chat model uses its default (lemma `LoaderOptions.ZeroTemperatureDropped`) | drop only options left at `None`; the index builders keep the truthy filter as written | not executed; low | LoaderOptions.ChatKwargsAsWritten | LoaderOptions.ChatKwargs |
