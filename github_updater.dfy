/**
  The update-check side of the GitHub updater plugin: where the raw copy of a
  repository file lives, how the metadata record handed to WordPress is put
  together, and the plugin and theme callbacks of the
  `update_plugins_github.com` / `update_themes_github.com` filters.

  WordPress's `get_file_data` (reading `Key: Value` lines of a remote file)
  and the HEAD probe behind `url_exists` are inputs: functions from the URI
  (and, for `get_file_data`, the header map) to their outcome.
 */
module GitHubUpdater {
  import opened PhpStrings
  import opened HttpStatus

  const WebHost := "https://github.com"
  const RawHost := "https://raw.githubusercontent.com"
  /** The branch the updater always reads from and downloads. */
  const Branch := "master"
  const PackageKey := "package"
  const IconsKey := "icons"
  const IconFile := "icon.svg"
  const ThemeFile := "style.css"

  /** Field name to file-header name, as the plugin callback asks for them. */
  const PluginHeaders: map<string, string> :=
    map["id" := "Update URI", "version" := "Version", "url" := "Plugin URI"]

  /** Field name to file-header name, as the theme callback asks for them. */
  const ThemeHeaders: map<string, string> :=
    map["theme" := "Theme Name", "url" := "Theme URI", "version" := "Version"]

  /** `get_raw_uri`: the raw-content URI of `filename` on the master branch of `repoUri`. */
  function RawUri(repoUri: string, filename: string): (uri: string)
    ensures |"/master/" + filename| <= |uri|
    ensures uri[|uri| - |"/master/" + filename|..] == "/master/" + filename
  {
    ReplaceAll(repoUri, WebHost, RawHost) + "/" + Branch + "/" + filename
  }

  /** The archive WordPress is told to download (line 79 of the plugin file). */
  function PackageUri(repoUri: string): (package: string)
    ensures |repoUri| <= |package| && package[..|repoUri|] == repoUri
    ensures package[|repoUri|..] == "/archive/refs/heads/master.zip"
  {
    repoUri + "/archive/refs/heads/" + Branch + ".zip"
  }

  /**
    The shape of a raw URI: it ends in "/master/" + filename, and what comes
    before is the repository URI with every occurrence of the web host (as
    `explode` finds them) replaced by the raw-content host.
   */
  lemma RawUriShape(repoUri: string, filename: string)
    ensures var uri := RawUri(repoUri, filename);
      var suffix := "/master/" + filename;
      |suffix| <= |uri| &&
      uri[|uri| - |suffix|..] == suffix &&
      uri[..|uri| - |suffix|] == Implode(RawHost, Explode(WebHost, repoUri))
  {
    ReplaceAllIsImplodeExplode(repoUri, WebHost, RawHost);
    var prefix := ReplaceAll(repoUri, WebHost, RawHost);
    var uri := RawUri(repoUri, filename);
    assert uri == prefix + ("/master/" + filename);
  }

  /** A repository URI that does not mention the web host is kept as it is. */
  lemma RawUriWithoutWebHost(repoUri: string, filename: string)
    requires !Contains(repoUri, WebHost)
    ensures RawUri(repoUri, filename) == repoUri + "/master/" + filename
  {
  }

  /**
    The usual case: a repository URI `https://github.com` + `path` whose path
    does not mention the host again is served from the raw-content host.
   */
  lemma RawUriOfGitHubRepository(path: string, filename: string)
    requires !Contains(path, WebHost)
    ensures RawUri(WebHost + path, filename) == RawHost + path + "/master/" + filename
  {
    assert WebHost + path == [] + WebHost + path;
    ReplaceAllAtFirstOccurrence([], WebHost, path, RawHost);
  }

  /**
    Proof helper for RawUriExample: the literal URIs of the example, built
    piece by piece. Kept apart so that these string equalities are proved on
    their own rather than alongside the facts about `RawUri`.
   */
  lemma AcmeWidgetUris(path: string, raw: string)
    requires path == "/acme/widget" && raw == "https://raw.githubusercontent.com/acme/widget"
    ensures WebHost + path == "https://github.com/acme/widget"
    ensures RawHost + path == raw
    ensures raw + "/master/" + "style.css" == "https://raw.githubusercontent.com/acme/widget/master/style.css"
  {
    assert raw + "/master/" == "https://raw.githubusercontent.com/acme/widget/master/";
  }

  /** The worked example: the style sheet of `acme/widget`. */
  lemma RawUriExample()
    ensures RawUri("https://github.com/acme/widget", "style.css")
         == "https://raw.githubusercontent.com/acme/widget/master/style.css"
  {
    var path := "/acme/widget";
    AcmeWidgetUris(path, "https://raw.githubusercontent.com/acme/widget");
    assert !Contains(path, WebHost);
    RawUriOfGitHubRepository(path, "style.css");
  }

  /** The package of `acme/widget` is the zip archive of its master branch. */
  lemma PackageUriExample()
    ensures PackageUri("https://github.com/acme/widget")
         == "https://github.com/acme/widget/archive/refs/heads/master.zip"
  {
    var repoUri := "https://github.com/acme/widget";
    assert repoUri + "/archive/refs/heads/" == "https://github.com/acme/widget/archive/refs/heads/";
    assert "https://github.com/acme/widget/archive/refs/heads/" + Branch
        == "https://github.com/acme/widget/archive/refs/heads/master";
    assert "https://github.com/acme/widget/archive/refs/heads/master" + ".zip"
        == "https://github.com/acme/widget/archive/refs/heads/master.zip";
  }

  /** Distinct repositories are offered distinct archives: the package determines the repository. */
  lemma PackageUriInjective(a: string, b: string)
    requires PackageUri(a) == PackageUri(b)
    ensures a == b
  {
    var p := PackageUri(a);
    assert |a| == |p| - |"/archive/refs/heads/master.zip"| == |b|;
  }

  /** A PHP value stored in the metadata record: a string, or (for `icons`) an array of strings. */
  datatype Value = Text(text: string) | Assoc(fields: map<string, string>)

  /** The metadata record: a PHP array with string keys. */
  type Record = map<string, Value>

  /** What `get_file_data` does: returns an array, returns nothing, or throws. */
  datatype FileDataOutcome = Returned(data: Record) | ReturnedNothing | Raised

  /** What `get_github_file_data` returns: an array, or `null`. */
  datatype FileData = Data(record: Record) | Null

  /** PHP truthiness of an array-or-null: a non-empty array. */
  predicate Truthy(d: FileData)
  {
    d.Data? && d.record != map[]
  }

  /** `after` is `before` with `key` set to `value`: that key added or overwritten, every other entry unchanged. */
  predicate SetsOnly(before: Record, after: Record, key: string, value: Value)
  {
    && after.Keys == before.Keys + {key}
    && after[key] == value
    && forall k :: k in before && k != key ==> after[k] == before[k]
  }

  /**
    `get_github_file_data`: fetch the metadata of `filename` from its raw
    URI; a non-empty record gets the `package` key pointing at the master
    archive; an empty one is passed on unchanged; no result or an exception
    gives `null`.
   */
  function GetGitHubFileData(repoUri: string, filename: string, keys: map<string, string>,
                             getFileData: (string, map<string, string>) -> FileDataOutcome): (info: FileData)
    ensures var fetched := getFileData(RawUri(repoUri, filename), keys);
      && (info.Data? <==> fetched.Returned?)
      && (fetched.Returned? && fetched.data == map[] ==> info.record == map[])
      && (fetched.Returned? && fetched.data != map[] ==>
            SetsOnly(fetched.data, info.record, PackageKey, Text(PackageUri(repoUri))))
  {
    match getFileData(RawUri(repoUri, filename), keys)
    case Raised => Null
    case ReturnedNothing => Null
    case Returned(data) =>
      if data != map[] then Data(data[PackageKey := Text(PackageUri(repoUri))]) else Data(data)
  }

  /** The record is non-empty exactly when the fetch gave a non-empty array. */
  lemma FileDataTruthyExactly(repoUri: string, filename: string, keys: map<string, string>,
                              getFileData: (string, map<string, string>) -> FileDataOutcome)
    ensures var fetched := getFileData(RawUri(repoUri, filename), keys);
      Truthy(GetGitHubFileData(repoUri, filename, keys, getFileData)) <==> fetched.Returned? && fetched.data != map[]
  {
    var fetched := getFileData(RawUri(repoUri, filename), keys);
    if fetched.Returned? && fetched.data != map[] {
      var info := GetGitHubFileData(repoUri, filename, keys, getFileData);
      assert PackageKey in info.record;
    }
  }

  /** What a filter callback hands back to WordPress: the caller's `$update`, or the fetched record. */
  datatype CallbackResult<U> = PassThrough(update: U) | UpdateInfo(info: Record)

  /**
    `$subject_data['UpdateURI']`. WordPress fires these filters only for
    subjects whose Update URI names github.com; a missing entry would be PHP
    `null`, which string functions treat as "".
   */
  function RepoUriOf(subjectData: map<string, string>): (repoUri: string)
    ensures "UpdateURI" in subjectData ==> repoUri == subjectData["UpdateURI"]
    ensures "UpdateURI" !in subjectData ==> repoUri == []
  {
    if "UpdateURI" in subjectData then subjectData["UpdateURI"] else ""
  }

  /** The icon entry the plugin callback adds when `icon.svg` exists. */
  function IconEntry(repoUri: string): Value
  {
    Assoc(map["svg" := RawUri(repoUri, IconFile)])
  }

  /** `$githubInfo['icons'] = ['svg' => $iconURI]`: the record with the icon entry set. */
  function WithIcon(record: Record, repoUri: string): (withIcon: Record)
    ensures SetsOnly(record, withIcon, IconsKey, IconEntry(repoUri))
  {
    record[IconsKey := IconEntry(repoUri)]
  }

  /**
    The `update_plugins_github.com` callback: fetch the plugin's own main file
    (the basename of `pluginFile`) from the repository named by its Update
    URI. Without a record the caller's `update` goes back unchanged.
    Otherwise the record goes back with `package` set, and with
    `icons = {svg: raw URI of icon.svg}` exactly when a HEAD request for that
    URI reports status 200.
   */
  function PluginUpdateCheck<U>(update: U, pluginData: map<string, string>, pluginFile: string,
                                getFileData: (string, map<string, string>) -> FileDataOutcome,
                                getHeaders: string -> HeadersResult): (result: CallbackResult<U>)
    ensures var repoUri := RepoUriOf(pluginData);
      var info := GetGitHubFileData(repoUri, Basename(pluginFile), PluginHeaders, getFileData);
      var hasIcon := UrlExists(getHeaders(RawUri(repoUri, IconFile)));
      && (result.PassThrough? <==> !Truthy(info))
      && (result.PassThrough? ==> result.update == update)
      && (Truthy(info) && hasIcon ==> SetsOnly(info.record, result.info, IconsKey, IconEntry(repoUri)))
      && (Truthy(info) && !hasIcon ==> result.info == info.record)
  {
    var repoUri := RepoUriOf(pluginData);
    var info := GetGitHubFileData(repoUri, Basename(pluginFile), PluginHeaders, getFileData);
    if !Truthy(info) then PassThrough(update)
    else
      if UrlExists(getHeaders(RawUri(repoUri, IconFile))) then UpdateInfo(WithIcon(info.record, repoUri))
      else UpdateInfo(info.record)
  }

  /** Setting two different keys one after the other sets both and leaves every other entry as it was. */
  lemma SetsOnlyTwice(a: Record, b: Record, c: Record, k1: string, v1: Value, k2: string, v2: Value)
    requires k1 != k2
    requires SetsOnly(a, b, k1, v1) && SetsOnly(b, c, k2, v2)
    ensures c.Keys == a.Keys + {k1, k2}
    ensures c[k1] == v1 && c[k2] == v2
    ensures forall k :: k in a && k != k1 && k != k2 ==> c[k] == a[k]
  {
  }

  /**
    What a plugin offer holds, in terms of the fetched array: exactly its
    keys plus `package` (and `icons` when `icon.svg` answers 200), `package`
    pointing at the master archive, and every other entry as fetched.
   */
  lemma PluginOfferContents<U>(update: U, pluginData: map<string, string>, pluginFile: string,
                               getFileData: (string, map<string, string>) -> FileDataOutcome,
                               getHeaders: string -> HeadersResult)
    ensures var repoUri := RepoUriOf(pluginData);
      var fetched := getFileData(RawUri(repoUri, Basename(pluginFile)), PluginHeaders);
      var result := PluginUpdateCheck(update, pluginData, pluginFile, getFileData, getHeaders);
      var hasIcon := UrlExists(getHeaders(RawUri(repoUri, IconFile)));
      && (result.UpdateInfo? <==> fetched.Returned? && fetched.data != map[])
      && (result.UpdateInfo? && hasIcon ==>
            && result.info.Keys == fetched.data.Keys + {PackageKey, IconsKey}
            && result.info[PackageKey] == Text(PackageUri(repoUri))
            && result.info[IconsKey] == IconEntry(repoUri)
            && forall k :: k in fetched.data && k != PackageKey && k != IconsKey ==> result.info[k] == fetched.data[k])
      && (result.UpdateInfo? && !hasIcon ==>
            SetsOnly(fetched.data, result.info, PackageKey, Text(PackageUri(repoUri))))
  {
    var repoUri := RepoUriOf(pluginData);
    var fetched := getFileData(RawUri(repoUri, Basename(pluginFile)), PluginHeaders);
    var info := GetGitHubFileData(repoUri, Basename(pluginFile), PluginHeaders, getFileData);
    var result := PluginUpdateCheck(update, pluginData, pluginFile, getFileData, getHeaders);
    FileDataTruthyExactly(repoUri, Basename(pluginFile), PluginHeaders, getFileData);
    if result.UpdateInfo? && UrlExists(getHeaders(RawUri(repoUri, IconFile))) {
      SetsOnlyTwice(fetched.data, info.record, result.info, PackageKey, Text(PackageUri(repoUri)), IconsKey, IconEntry(repoUri));
    }
  }

  /**
    The `update_themes_github.com` callback: fetch `style.css` of the
    repository named by the theme's Update URI; the record (with `package`
    set) when there is one, the caller's `update` otherwise.
   */
  function ThemeUpdateCheck<U>(update: U, themeData: map<string, string>, stylesheet: string,
                               getFileData: (string, map<string, string>) -> FileDataOutcome): (result: CallbackResult<U>)
    ensures var repoUri := RepoUriOf(themeData);
      var fetched := getFileData(RawUri(repoUri, ThemeFile), ThemeHeaders);
      var offered := fetched.Returned? && fetched.data != map[];
      && (result.PassThrough? <==> !offered)
      && (result.PassThrough? ==> result.update == update)
      && (offered ==> SetsOnly(fetched.data, result.info, PackageKey, Text(PackageUri(repoUri))))
  {
    var info := GetGitHubFileData(RepoUriOf(themeData), ThemeFile, ThemeHeaders, getFileData);
    if Truthy(info) then UpdateInfo(info.record) else PassThrough(update)
  }

  /**
    For a plugin installed as `dir/name`, the callback reads the metadata of
    `name` (the plugin's main file) from the repository, whatever `dir` is:
    it offers a record exactly when that fetch gives a non-empty array.
   */
  lemma PluginFetchesMainFile<U>(update: U, pluginData: map<string, string>, dir: string, name: string,
                                 getFileData: (string, map<string, string>) -> FileDataOutcome,
                                 getHeaders: string -> HeadersResult)
    requires name != [] && '/' !in name
    ensures var fetched := getFileData(RawUri(RepoUriOf(pluginData), name), PluginHeaders);
      (PluginUpdateCheck(update, pluginData, dir + "/" + name, getFileData, getHeaders).UpdateInfo? <==>
         fetched.Returned? && fetched.data != map[])
  {
    BasenameOfJoin(dir, name);
    FileDataTruthyExactly(RepoUriOf(pluginData), name, PluginHeaders, getFileData);
  }

  /** A `get_file_data` for the example below: only the style sheet of `acme/widget` is reachable. */
  function WidgetStyleSheet(uri: string, keys: map<string, string>): FileDataOutcome
  {
    if uri == "https://raw.githubusercontent.com/acme/widget/master/style.css"
    then Returned(map["version" := Text("1.2.3")])
    else Raised
  }

  /**
    The theme `acme/widget` whose `style.css` declares version 1.2.3 is
    offered with that version and the master archive as its package.
   */
  lemma ThemeExample()
    ensures ThemeUpdateCheck(false, map["UpdateURI" := "https://github.com/acme/widget"], "widget", WidgetStyleSheet)
         == UpdateInfo(map["version" := Text("1.2.3"),
                           "package" := Text("https://github.com/acme/widget/archive/refs/heads/master.zip")])
  {
    var repoUri := "https://github.com/acme/widget";
    var data := map["version" := Text("1.2.3")];
    var package := Text("https://github.com/acme/widget/archive/refs/heads/master.zip");
    assert RepoUriOf(map["UpdateURI" := repoUri]) == repoUri;
    RawUriExample();
    assert WidgetStyleSheet(RawUri(repoUri, ThemeFile), ThemeHeaders) == Returned(data);
    assert "version" in data;
    PackageUriExample();
    assert GetGitHubFileData(repoUri, ThemeFile, ThemeHeaders, WidgetStyleSheet) == Data(data[PackageKey := package]);
    assert data[PackageKey := package] == map["version" := Text("1.2.3"), "package" := package];
  }
}
