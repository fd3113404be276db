/** The string rewriting that `getAllLoadedScripts` and `getAllLoadedStyles`
    apply, in both copies of the utilities, to each loaded asset: the three
    regular expressions `/-js$/` (or `/-css$/`),
    `/^http:\/\/[^/]+\/(wp-content\/plugins\/[^/]+\/)?/` and
    `/[?&]ver=[a-z0-9.-]+/`, written out as matchers, and the loop that
    collects one record per element. */
module AssetUrl {
  import opened Options
  import opened Strings

  /** `id.replace(/-js$/, '')`: one trailing `suffix` is dropped. */
  function StripIdSuffix(id: string, suffix: string): (r: string)
    ensures EndsWith(id, suffix) ==> r + suffix == id
    ensures !EndsWith(id, suffix) ==> r == id
  {
    if EndsWith(id, suffix) then id[..|id| - |suffix|] else id
  }

  /** Appending the suffix and stripping it again gives back the id,
      and only one copy of the suffix is ever removed. */
  lemma StripIdSuffixAppended(id: string, suffix: string)
    ensures StripIdSuffix(id + suffix, suffix) == id
  {
    assert EndsWith(id + suffix, suffix) by {
      assert (id + suffix)[|id|..] == suffix;
    }
    assert (id + suffix)[..|id|] == id;
  }

  const HttpScheme := "http://"
  const PluginsDir := "wp-content/plugins/"

  /** The optional group `(wp-content\/plugins\/[^/]+\/)?` applied to what
      follows the host: it is removed when a non-empty slug without `/`
      and a closing `/` follow the plugins directory. */
  function StripPluginDir(p: string): (r: string)
    ensures EndsWith(p, r)
  {
    if StartsWith(p, PluginsDir) then
      var slugEnd := |PluginsDir| + IndexOfChar(p[|PluginsDir|..], '/');
      if |PluginsDir| < slugEnd < |p| then
        EndsWithTail(p, slugEnd + 1, p[slugEnd + 1..]);
        p[slugEnd + 1..]
      else p
    else p
  }

  /** `src.replace(/^http:\/\/[^/]+\/(wp-content\/plugins\/[^/]+\/)?/, '')`.
      `[^/]+` is greedy and cannot cross a `/`, so the host runs up to the
      first `/` after the scheme and must not be empty. */
  function StripHostPrefix(src: string): (r: string)
    ensures EndsWith(src, r)
  {
    if StartsWith(src, HttpScheme) then
      var hostEnd := |HttpScheme| + IndexOfChar(src[|HttpScheme|..], '/');
      if |HttpScheme| < hostEnd < |src| then
        var rest := src[hostEnd + 1..];
        EndsWithTail(src, hostEnd + 1, StripPluginDir(rest));
        StripPluginDir(rest)
      else src
    else src
  }

  /** A plugin directory prefix with a non-empty slug is removed, and nothing more. */
  lemma StripPluginDirRemoves(slug: string, rest: string)
    requires slug != [] && '/' !in slug
    ensures StripPluginDir(PluginsDir + slug + "/" + rest) == rest
  {
    var p := PluginsDir + slug + "/" + rest;
    assert p[..|PluginsDir|] == PluginsDir;
    var tail := p[|PluginsDir|..];
    assert tail == slug + "/" + rest;
    assert tail[|slug|] == '/';
    assert tail[..|slug|] == slug;
    IndexOfCharAt(tail, '/', |slug|);
    assert p[|PluginsDir| + |slug| + 1..] == rest;
  }

  /** What does not start with the plugins directory passes unchanged. */
  lemma StripPluginDirKeeps(p: string)
    requires !StartsWith(p, PluginsDir)
    ensures StripPluginDir(p) == p
  {
  }

  /** The plugin directory without a closing `/` after the slug is no match
      of the group, and is kept. */
  lemma StripPluginDirKeepsUnclosedSlug(slug: string)
    requires '/' !in slug
    ensures StripPluginDir(PluginsDir + slug) == PluginsDir + slug
  {
    var p := PluginsDir + slug;
    assert p[..|PluginsDir|] == PluginsDir;
    assert p[|PluginsDir|..] == slug;
    assert forall j :: 0 <= j < |slug| ==> slug[j] != '/';
  }

  /** The plugin directory followed at once by `/` has an empty slug, which
      `[^/]+` does not match, and is kept. */
  lemma StripPluginDirKeepsEmptySlug(rest: string)
    ensures StripPluginDir(PluginsDir + "/" + rest) == PluginsDir + "/" + rest
  {
    var p := PluginsDir + "/" + rest;
    assert p[..|PluginsDir|] == PluginsDir;
    var tail := p[|PluginsDir|..];
    assert tail == "/" + rest;
    IndexOfCharAt(tail, '/', 0);
  }

  /** `http://<host>/` with a non-empty, slash-free host is removed, and the
      rest is then handed to the optional plugin directory group. */
  lemma StripHostPrefixRemovesHost(host: string, rest: string)
    requires host != [] && '/' !in host
    ensures StripHostPrefix(HttpScheme + host + "/" + rest) == StripPluginDir(rest)
  {
    var src := HttpScheme + host + "/" + rest;
    assert src[..|HttpScheme|] == HttpScheme;
    var tail := src[|HttpScheme|..];
    assert tail == host + "/" + rest;
    assert tail[|host|] == '/';
    assert tail[..|host|] == host;
    IndexOfCharAt(tail, '/', |host|);
    assert src[|HttpScheme| + |host| + 1..] == rest;
  }

  /** A plugin asset url loses everything up to the plugin's own path. */
  lemma StripHostPrefixOfPluginAsset(host: string, slug: string, path: string)
    requires host != [] && '/' !in host && slug != [] && '/' !in slug
    ensures StripHostPrefix(HttpScheme + host + "/" + PluginsDir + slug + "/" + path) == path
  {
    var afterHost := PluginsDir + slug + "/" + path;
    assert HttpScheme + host + "/" + PluginsDir + slug + "/" + path == HttpScheme + host + "/" + afterHost;
    StripHostPrefixRemovesHost(host, afterHost);
    StripPluginDirRemoves(slug, path);
  }

  /** `http://` followed by a host with no `/` after it is no match, and
      the url is kept. */
  lemma StripHostPrefixKeepsUnclosedHost(host: string)
    requires '/' !in host
    ensures StripHostPrefix(HttpScheme + host) == HttpScheme + host
  {
    var src := HttpScheme + host;
    assert src[..|HttpScheme|] == HttpScheme;
    assert src[|HttpScheme|..] == host;
    assert forall j :: 0 <= j < |host| ==> host[j] != '/';
  }

  /** `http:///...` has an empty host, which `[^/]+` does not match, and the
      url is kept. */
  lemma StripHostPrefixKeepsEmptyHost(rest: string)
    ensures StripHostPrefix(HttpScheme + "/" + rest) == HttpScheme + "/" + rest
  {
    var src := HttpScheme + "/" + rest;
    assert src[..|HttpScheme|] == HttpScheme;
    var tail := src[|HttpScheme|..];
    assert tail == "/" + rest;
    IndexOfCharAt(tail, '/', 0);
  }

  /** A url that does not start with `http://` (an `https://` url, a
      relative path) keeps its prefix. */
  lemma StripHostPrefixKeepsOtherSchemes(src: string)
    requires !StartsWith(src, HttpScheme)
    ensures StripHostPrefix(src) == src
  {
  }

  /** In particular `https://` urls are left alone. */
  lemma StripHostPrefixKeepsHttps(src: string)
    requires StartsWith(src, "https://")
    ensures StripHostPrefix(src) == src
  {
    assert src[..8][4] == 's';
    assert src[..7][4] == 's';
  }

  /** `[a-z0-9.-]` */
  predicate IsVersionChar(c: char) {
    ('a' <= c <= 'z') || ('0' <= c <= '9') || c == '.' || c == '-'
  }

  /** `/[?&]ver=[a-z0-9.-]+/` matches at index `i` of `s`. */
  predicate VersionParamAt(s: string, i: int) {
    0 <= i && i + 6 <= |s|
    && (s[i] == '?' || s[i] == '&')
    && s[i + 1..i + 5] == "ver="
    && IsVersionChar(s[i + 5])
  }

  /** End of the greedy `[a-z0-9.-]+` run that starts at `j`. */
  function VersionRunEnd(s: string, j: nat): (k: nat)
    requires j <= |s|
    ensures j <= k <= |s|
    ensures forall m :: j <= m < k ==> IsVersionChar(s[m])
    ensures k < |s| ==> !IsVersionChar(s[k])
    decreases |s| - j
  {
    if j == |s| || !IsVersionChar(s[j]) then j else VersionRunEnd(s, j + 1)
  }

  /** The run ends exactly where the version characters stop. */
  lemma {:induction false} RunEndAt(s: string, j: nat, k: nat)
    requires j <= k <= |s|
    requires forall m :: j <= m < k ==> IsVersionChar(s[m])
    requires k < |s| ==> !IsVersionChar(s[k])
    ensures VersionRunEnd(s, j) == k
    decreases k - j
  {
    if j < k {
      RunEndAt(s, j + 1, k);
    }
  }

  /** The leftmost match of the version parameter at or after `from`. */
  function FindVersionParam(s: string, from: nat): (r: Option<nat>)
    ensures r.Some? ==> from <= r.value && VersionParamAt(s, r.value)
    ensures r.Some? ==> forall i :: from <= i < r.value ==> !VersionParamAt(s, i)
    ensures r.None? ==> forall i :: from <= i ==> !VersionParamAt(s, i)
    decreases |s| - from
  {
    if |s| < from + 6 then None
    else if VersionParamAt(s, from) then Some(from)
    else FindVersionParam(s, from + 1)
  }

  /** `src.replace(/[?&]ver=[a-z0-9.-]+/, '')`: without the `g` flag only the
      leftmost match is removed, separator included, and the run of version
      characters is taken as long as it goes. */
  function StripVersion(s: string): (r: string)
    ensures (forall i :: !VersionParamAt(s, i)) ==> r == s
    ensures forall i :: VersionParamAt(s, i) && (forall j :: 0 <= j < i ==> !VersionParamAt(s, j)) ==>
      r == s[..i] + s[VersionRunEnd(s, i + 5)..]
  {
    match FindVersionParam(s, 0)
    case None => s
    case Some(i) => s[..i] + s[VersionRunEnd(s, i + 5)..]
  }

  /** A separator appended to a url without a match starts no match
      inside that url, whatever follows it. */
  lemma NoMatchBeforeSeparator(u: string, sep: char, t: string)
    requires forall i :: !VersionParamAt(u, i)
    requires sep == '?' || sep == '&'
    ensures forall j :: 0 <= j < |u| ==> !VersionParamAt(u + [sep] + t, j)
  {
    var s := u + [sep] + t;
    var n := |u|;
    forall j | 0 <= j < n
      ensures !VersionParamAt(s, j)
    {
      if j + 5 < n {
        assert s[j + 1..j + 5] == u[j + 1..j + 5];
        assert s[j + 5] == u[j + 5];
        assert !VersionParamAt(u, j);
      } else if j + 5 == n {
        assert s[j + 5] == sep;
      } else if j + 6 <= |s| {
        assert s[j + 1..j + 5][n - j - 1] == sep;
      }
    }
  }

  /** The run of version characters stops at the end of `v` when the text
      after it does not start with one. */
  lemma RunOverValue(p: string, v: string, rest: string)
    requires forall m :: 0 <= m < |v| ==> IsVersionChar(v[m])
    requires rest == [] || !IsVersionChar(rest[0])
    ensures VersionRunEnd(p + v + rest, |p|) == |p| + |v|
  {
    var s := p + v + rest;
    forall m | |p| <= m < |p| + |v|
      ensures IsVersionChar(s[m])
    {
      assert s[m] == v[m - |p|];
    }
    assert |p| + |v| < |s| ==> s[|p| + |v|] == rest[0];
    RunEndAt(s, |p|, |p| + |v|);
  }

  /** A `?ver=` or `&ver=` parameter is removed from a url that has no
      earlier match, whatever follows it, including a second parameter. */
  lemma StripVersionRemovesFirstParam(u: string, sep: char, v: string, rest: string)
    requires forall i :: !VersionParamAt(u, i)
    requires sep == '?' || sep == '&'
    requires v != [] && forall m :: 0 <= m < |v| ==> IsVersionChar(v[m])
    requires rest == [] || !IsVersionChar(rest[0])
    ensures StripVersion(u + [sep] + "ver=" + v + rest) == u + rest
  {
    var p := u + [sep] + "ver=";
    var s := p + v + rest;
    var n := |u|;
    assert s == u + [sep] + ("ver=" + v + rest);
    NoMatchBeforeSeparator(u, sep, "ver=" + v + rest);
    RunOverValue(p, v, rest);
    assert s[n + 1..n + 5] == "ver=";
    assert s[n + 5] == v[0];
    assert VersionParamAt(s, n);
    assert s[..n] == u;
    assert s[n + 5 + |v|..] == rest;
  }

  /** A trailing `?ver=` parameter is removed from a path that has no other. */
  lemma StripTrailingVersion(path: string, v: string)
    requires forall i :: !VersionParamAt(path, i)
    requires v != [] && forall m :: 0 <= m < |v| ==> IsVersionChar(v[m])
    ensures StripVersion(path + "?ver=" + v) == path
  {
    assert "?ver=" == ['?'] + "ver=";
    assert path + "?ver=" + v == path + ['?'] + "ver=" + v + [];
    StripVersionRemovesFirstParam(path, '?', v, []);
  }

  /** A `script` element (its `id` and `src`) or a `link[rel="stylesheet"]`
      element (its `id` and `href`), as the document lists them. */
  datatype Element = Element(id: string, url: string)

  /** One entry of the `assets` array. */
  datatype Asset = Asset(id: string, src: string)

  /** The url rewriting: the host and plugin directory prefix, then, where
      the copy of the utilities does it, the version parameter. */
  function NormalizeUrl(url: string, stripVersion: bool): string {
    var path := StripHostPrefix(url);
    if stripVersion then StripVersion(path) else path
  }

  /** The entry pushed for an element whose url is non-empty. */
  function ToAsset(e: Element, idSuffix: string, stripVersion: bool): Asset {
    Asset(StripIdSuffix(e.id, idSuffix), NormalizeUrl(e.url, stripVersion))
  }

  /** What the `forEach` pushes for one element: nothing when `item.src`
      (or `item.href`) is the empty string, which is falsy. */
  function AssetsOf(e: Element, idSuffix: string, stripVersion: bool): seq<Asset> {
    if e.url != "" then [ToAsset(e, idSuffix, stripVersion)] else []
  }

  /** The `assets` array after the `forEach` over `elems`. */
  function Assets(elems: seq<Element>, idSuffix: string, stripVersion: bool): (r: seq<Asset>)
    ensures |r| <= |elems|
  {
    if elems == [] then []
    else AssetsOf(elems[0], idSuffix, stripVersion) + Assets(elems[1..], idSuffix, stripVersion)
  }

  /** Collecting is order preserving: the entries of a concatenation are the
      entries of the first part followed by those of the second. */
  lemma {:induction false} AssetsAppend(a: seq<Element>, b: seq<Element>, idSuffix: string, stripVersion: bool)
    ensures Assets(a + b, idSuffix, stripVersion) == Assets(a, idSuffix, stripVersion) + Assets(b, idSuffix, stripVersion)
  {
    if a == [] {
      assert a + b == b;
    } else {
      var t := a[1..];
      assert (a + b)[1..] == t + b;
      AssetsAppend(t, b, idSuffix, stripVersion);
    }
  }

  /** Every entry comes from an element with a non-empty url, and every such
      element contributes its entry. */
  lemma {:induction false} AssetsMembership(elems: seq<Element>, idSuffix: string, stripVersion: bool)
    ensures forall a :: a in Assets(elems, idSuffix, stripVersion) <==>
      exists e :: e in elems && e.url != "" && a == ToAsset(e, idSuffix, stripVersion)
  {
    if elems != [] {
      AssetsMembership(elems[1..], idSuffix, stripVersion);
      forall e | e in elems
        ensures e == elems[0] || e in elems[1..]
      {
        var k :| 0 <= k < |elems| && elems[k] == e;
        if k > 0 {
          assert elems[1..][k - 1] == e;
        }
      }
    }
  }

  /** One more element adds its own entry, if any, at the end. */
  lemma AssetsStep(elems: seq<Element>, i: nat, idSuffix: string, stripVersion: bool)
    requires i < |elems|
    ensures Assets(elems[..i + 1], idSuffix, stripVersion) == Assets(elems[..i], idSuffix, stripVersion) + AssetsOf(elems[i], idSuffix, stripVersion)
  {
    assert elems[..i + 1] == elems[..i] + [elems[i]];
    AssetsAppend(elems[..i], [elems[i]], idSuffix, stripVersion);
    assert Assets([elems[i]], idSuffix, stripVersion) == AssetsOf(elems[i], idSuffix, stripVersion) + Assets([], idSuffix, stripVersion);
  }

  /** The `forEach` loop with its `push`. */
  method CollectAssets(elems: seq<Element>, idSuffix: string, stripVersion: bool) returns (assets: seq<Asset>)
    ensures assets == Assets(elems, idSuffix, stripVersion)
  {
    assets := [];
    var i := 0;
    while i < |elems|
      invariant 0 <= i <= |elems|
      invariant assets == Assets(elems[..i], idSuffix, stripVersion)
    {
      AssetsStep(elems, i, idSuffix, stripVersion);
      if elems[i].url != "" {
        assets := assets + [ToAsset(elems[i], idSuffix, stripVersion)];
      }
      i := i + 1;
    }
    assert elems[..i] == elems;
  }
}
