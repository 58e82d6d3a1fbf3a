# GitHub Updater for WordPress: a Dafny model of its update-check logic

The plugin `hh-wp-github-updater` lets WordPress check for new versions of a
plugin or theme whose `Update URI` points at a public GitHub repository. It
adds callbacks to the `update_plugins_github.com` and
`update_themes_github.com` filters. For each one, a callback reads the `Key:
Value` header block of the subject's main file (or of `style.css` for a
theme) from the raw-content host. It then returns that metadata with a
`package` download URL added. For plugins it also adds an `icons` entry when
`icon.svg` exists in the repository.

This project models the decision and string logic of that file as pure
Dafny functions and proves properties of it:

- `php_strings.dfy` (module `PhpStrings`) models the PHP built-ins the code
  relies on: `str_replace` with one search string, `explode` and `basename`.
  The updater never calls `implode`. The model adds it only as a reference
  definition: it is the inverse of `explode`, and `str_replace` is proved
  equal to `implode` of `explode`.
- `http_status.dfy` (module `HttpStatus`) models `get_http_status` and
  `url_exists`. The header array of `get_headers(..., true)` is modelled as
  a sequence of entries, each with the key PHP gave it: an integer or a
  string. Line 35 keeps the entries whose key is an integer (`is_int`), and
  the model calls these the status lines. Usually they are the status lines
  of the redirect chain, and the string-keyed entries are the named
  headers. The result is one of the three PHP values the function can
  return: `false`, `null`, or the status-code token.
- `github_updater.dfy` (module `GitHubUpdater`) models `get_raw_uri`, the
  `package` injection of `get_github_file_data`, and the two filter
  callbacks. WordPress's `get_file_data` and the HEAD request behind
  `url_exists` are function-valued parameters. `get_file_data` returns an
  array, returns nothing, or throws. The HEAD probe returns a
  `HeadersResult`.

## Model

| member | source | states |
|---|---|---|
| `PhpStrings.Explode` | hh-wp-github-updater.php:45 | `explode` always yields at least one piece, and the first piece is a prefix of the input |
| `PhpStrings.ImplodeExplode` | hh-wp-github-updater.php:45 | joining the pieces of `explode` with the separator gives the input back |
| `PhpStrings.ExplodePiecesAvoidSeparator` | hh-wp-github-updater.php:45 | no piece of `explode` contains the separator |
| `PhpStrings.ExplodeWithoutSeparator` | hh-wp-github-updater.php:45 | a string without the separator explodes into itself alone |
| `PhpStrings.ExplodeAtFirstOccurrence` | hh-wp-github-updater.php:45 | for a separator of any length: when no occurrence starts inside `w`, the pieces of `w + sep + t` are `w` followed by the pieces of `t` |
| `PhpStrings.ExplodeAtFirstSeparator` | hh-wp-github-updater.php:45 | the one-character case used for status lines: a first piece without the separator ends at the first separator |
| `PhpStrings.ExplodeSplitsAtSeparator` | hh-wp-github-updater.php:45 | a string holding the one-character separator explodes into at least two pieces |
| `PhpStrings.ReplaceAll` | hh-wp-github-updater.php:62 | `str_replace` leaves a string without the search string unchanged |
| `PhpStrings.ReplaceAllIsImplodeExplode` | hh-wp-github-updater.php:62 | `str_replace(search, replace, s)` equals `implode(replace, explode(search, s))`: exactly the occurrences `explode` finds are replaced, and nothing else changes |
| `PhpStrings.ReplaceAllAtFirstOccurrence` | hh-wp-github-updater.php:62 | at the first occurrence of `search`, the text before it is kept, the occurrence is replaced, and the scan resumes right after it, so occurrences never overlap |
| `PhpStrings.TrimTrailingSlashes` | hh-wp-github-updater.php:100 | the result is a prefix of the path that does not end in '/', and only '/' was dropped |
| `PhpStrings.LastSegment` | hh-wp-github-updater.php:100 | the result is the longest '/'-free tail of its input |
| `PhpStrings.Basename` | hh-wp-github-updater.php:100 | `basename` gives a name without '/' and no longer than the path |
| `PhpStrings.BasenameOfJoin` | hh-wp-github-updater.php:100 | `basename("dir/name")` is `name` for a nonempty, '/'-free `name` |
| `HttpStatus.StatusLines` | hh-wp-github-updater.php:35 | filtering the header array on integer keys keeps at most as many entries as it had |
| `HttpStatus.CodeOf` | hh-wp-github-updater.php:45-47 | the code read from a status line is never `false`, and a code token holds no space |
| `HttpStatus.GetHttpStatus` | hh-wp-github-updater.php:16-54 | a code is returned only for an array with at least one status line, and the code holds no space |
| `HttpStatus.UrlExists` | hh-wp-github-updater.php:56-58 | `url_exists` is true only for an array with at least one status line |
| `HttpStatus.StatusLinesKeepIndexed` | hh-wp-github-updater.php:35 | when every key is an integer, the filtered list holds every entry's value, in the original order |
| `HttpStatus.StatusLinesAppend` | hh-wp-github-updater.php:35 | keeping only integer-keyed entries distributes over concatenation, so their order is kept |
| `HttpStatus.NoStatusLines` | hh-wp-github-updater.php:35-39 | the filtered list is empty exactly when every entry has a string key |
| `HttpStatus.StatusFalseExactly` | hh-wp-github-updater.php:30-39 | `get_http_status` returns `false` exactly when `get_headers` gave no array, or an array without status lines |
| `HttpStatus.LastStatusLineDecides` | hh-wp-github-updater.php:41-45 | the code comes from the last integer-keyed entry; earlier integer-keyed entries and all string-keyed entries have no effect |
| `HttpStatus.NamedHeaderIrrelevant` | hh-wp-github-updater.php:35 | inserting a string-keyed entry anywhere does not change the status |
| `HttpStatus.CodeIsSecondToken` | hh-wp-github-updater.php:45 | for `version code rest`, with no space in `version` or `code` and `rest` empty or starting with a space, the code is `code` |
| `HttpStatus.CodeMissingExactly` | hh-wp-github-updater.php:45-47 | a status line gives `null` (undefined index 1) exactly when it holds no space |
| `HttpStatus.UrlExistsExactly200` | hh-wp-github-updater.php:56-58 | `url_exists` is true exactly when the code token of the last status line is "200" |
| `HttpStatus.UrlMissingWithoutStatus` | hh-wp-github-updater.php:16-58 | `url_exists` is false when `get_headers` failed, threw, or gave no status line |
| `HttpStatus.UrlMissingForSpacelessStatus` | hh-wp-github-updater.php:41-58 | when the last status line has no space, `get_http_status` gives `null` and `url_exists` is false |
| `HttpStatus.NotFoundLineExample` | hh-wp-github-updater.php:45 | "HTTP/1.1 404 Not Found" gives "404" |
| `HttpStatus.OkLineExample` | hh-wp-github-updater.php:45 | "HTTP/1.1 200 OK" gives "200" |
| `HttpStatus.RedirectChainExample` | hh-wp-github-updater.php:41-57 | a 301 followed by a 200, with named headers between, exists |
| `HttpStatus.LaterNotFoundExample` | hh-wp-github-updater.php:41-57 | a 200 followed by a 404 does not exist: the later status line wins |
| `GitHubUpdater.RawUri` | hh-wp-github-updater.php:60-66 | the raw URI always ends in "/master/" + filename |
| `GitHubUpdater.RawUriShape` | hh-wp-github-updater.php:60-66 | the raw URI ends in "/master/" + filename, and before that is the repository URI with every `https://github.com` replaced by `https://raw.githubusercontent.com` |
| `GitHubUpdater.RawUriWithoutWebHost` | hh-wp-github-updater.php:62-65 | a repository URI without `https://github.com` gives `repoUri + "/master/" + filename` |
| `GitHubUpdater.RawUriOfGitHubRepository` | hh-wp-github-updater.php:62-65 | `https://github.com` + path gives `https://raw.githubusercontent.com` + path + "/master/" + filename |
| `GitHubUpdater.RawUriExample` | hh-wp-github-updater.php:60-66 | `acme/widget` with `style.css` gives `https://raw.githubusercontent.com/acme/widget/master/style.css` |
| `GitHubUpdater.PackageUri` | hh-wp-github-updater.php:79 | the package URI is the repository URI followed by "/archive/refs/heads/master.zip" |
| `GitHubUpdater.PackageUriInjective` | hh-wp-github-updater.php:79 | distinct repositories get distinct package URIs |
| `GitHubUpdater.PackageUriExample` | hh-wp-github-updater.php:79 | the package of `acme/widget` is `https://github.com/acme/widget/archive/refs/heads/master.zip` |
| `GitHubUpdater.GetGitHubFileData` | hh-wp-github-updater.php:69-94 | the metadata is read from the raw URI; a non-empty array comes back with only `package` added or overwritten; an empty array comes back unchanged; nothing returned or an exception gives `null` |
| `GitHubUpdater.FileDataTruthyExactly` | hh-wp-github-updater.php:77-86 | the result is a non-empty array exactly when `get_file_data` returned a non-empty array |
| `GitHubUpdater.RepoUriOf` | hh-wp-github-updater.php:98 | the repository URI is the `UpdateURI` entry of the subject's data, or "" (PHP `null`) when it is missing; line 123 reads it the same way for themes |
| `GitHubUpdater.WithIcon` | hh-wp-github-updater.php:113-115 | setting the icon changes only `icons`, to `{svg: raw URI of icon.svg}` |
| `GitHubUpdater.PluginUpdateCheck` | hh-wp-github-updater.php:97-119 | the plugin callback returns the caller's `$update` exactly when the metadata is falsy; otherwise it returns the metadata, with only `icons` set when `icon.svg` answers 200, and unchanged when it does not |
| `GitHubUpdater.PluginOfferContents` | hh-wp-github-updater.php:97-119 | a plugin offer holds exactly the fetched keys plus `package`, plus `icons` when the icon exists; `package` is the master archive, `icons` is `{svg: raw URI of icon.svg}`, and every other entry is as fetched |
| `GitHubUpdater.PluginFetchesMainFile` | hh-wp-github-updater.php:98-107 | for a plugin file `dir/name`, the callback reads `name` from the repository, and makes an offer exactly when that read gives a non-empty array |
| `GitHubUpdater.ThemeUpdateCheck` | hh-wp-github-updater.php:122-132 | the theme callback reads `style.css`; it returns the caller's `$update` exactly when the metadata is falsy, and otherwise the fetched array with only `package` set |
| `GitHubUpdater.ThemeExample` | hh-wp-github-updater.php:122-132 | a `style.css` declaring version 1.2.3 gives that version plus the master archive as `package` |

## Left out

- The network: `get_headers` and the HEAD-only stream context memoised in `static $context` (lines 17-28). Their outcome is the `HeadersResult` input, including the case where they throw.
- The body of WordPress's `get_file_data`, which is not in this file. It is an input function from (URI, header map) to an array, to nothing, or to an exception.
- The `error_log` diagnostics (lines 72, 81, 84, 89). They do not affect any result.
- Hook registration (`add_filter`, priorities and argument counts at lines 97 and 122), WordPress's dispatch of the filters, and its version comparison. The `$locales` argument of both callbacks is unused in the source and is not a parameter of the model.
- PHP's warning for a status line without a space. Only its value (`null`) is modelled.
- `HttpStatus.UrlExists`: only the exact token "200" counts as equal to 200. PHP's loose `==` also accepts other numeric spellings of 200, such as "0200" or "2e2". Servers do not send these.
- Named headers that repeat become arrays under their string key in `get_headers`. The model gives every entry a string value, because string-keyed entries never reach the result.
- How `get_headers` assigns keys is taken as input, not modelled. Some cases break the usual pattern. A header whose name is a decimal integer (`404: x`) is filed under an integer key. A line without ':' gets the next integer index. A status line whose reason phrase holds ':' (`HTTP/1.1 200 OK: cached`) is filed under a string key. Line 35 only tests `is_int` on the key. So in these cases a header line can decide the result, or a status line can be skipped. The model follows line 35 exactly: it decides on whichever entries carry integer keys. It does not claim that those entries are the status lines the server sent.
- `PhpStrings.Basename`: only '/' is a separator. Locale-dependent multibyte handling and the optional suffix argument of PHP's `basename` are left out.
- A custom package-locator scheme, rewriting of the package options at install time, and renaming of the extracted directory are not part of this source file, so they are not part of this model.
