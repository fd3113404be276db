/** The older copy of the helpers at the repository root (utils.js), used by
    the block directory test: block titles, `runTest`, and the loaded script
    and stylesheet listings, which keep the version parameter. */
module RootUtils {
  import opened Options
  import opened Js
  import opened AssetUrl
  import opened BlockRegistry
  import SpecsUtils

  /** `getThirdPartyBlocks`: the titles of the block types whose name does
      not start with `core`, in order. */
  function ThirdPartyBlockTitles<S>(blocks: seq<BlockType<S>>): (r: seq<string>)
    ensures |r| <= |blocks|
  {
    if blocks == [] then []
    else
      var rest := ThirdPartyBlockTitles(blocks[1..]);
      if IsCoreBlock(blocks[0].name) then rest else [blocks[0].title] + rest
  }

  /** Both copies keep the same block types in the same order: the titles
      listed here are the titles of the summaries the test suite helper lists. */
  lemma {:induction false} TitlesOfThirdPartyBlocks<S>(blocks: seq<BlockType<S>>)
    ensures var summaries := SpecsUtils.ThirdPartyBlocks(blocks);
      ThirdPartyBlockTitles(blocks) == seq(|summaries|, k requires 0 <= k < |summaries| => summaries[k].title)
  {
    if blocks != [] {
      TitlesOfThirdPartyBlocks(blocks[1..]);
    }
  }

  /** `runTest(func, errorMessage)`: a throw of `func` is replaced by
      `new Error(errorMessage)`; an omitted message gives the empty one. */
  function RunTest(func: Completion, errorMessage: Option<string>): (r: Completion)
    ensures r.Returned? <==> func.Returned?
    ensures func.Threw? ==> r == Threw(NewError(errorMessage.GetOr("")))
  {
    match func
    case Returned => Returned
    case Threw(_) => Threw(NewError(errorMessage.GetOr("")))
  }

  /** With a non-empty message the two wrappers report a failure alike;
      with an empty or missing one `runTest` still replaces the error while
      `expectWithMessage` rethrows the original. */
  lemma RunTestAndExpectWithMessage(func: Completion, errorMessage: Option<string>, capture: Option<bool>)
    ensures Truthy(errorMessage) ==>
      RunTest(func, errorMessage) == SpecsUtils.ExpectWithMessage(func, errorMessage, capture).completion
    ensures func.Threw? && !Truthy(errorMessage) ==>
      RunTest(func, errorMessage) == Threw(NewError(""))
      && SpecsUtils.ExpectWithMessage(func, errorMessage, capture).completion == func
  {
  }

  /** `getAllLoadedScripts`: ids lose `-js`, urls lose the host prefix only. */
  method GetAllLoadedScripts(scripts: seq<Element>) returns (assets: seq<Asset>)
    ensures assets == Assets(scripts, "-js", false)
  {
    assets := CollectAssets(scripts, "-js", false);
  }

  /** `getAllLoadedStyles`: the same for stylesheet links, with `-css`. */
  method GetAllLoadedStyles(links: seq<Element>) returns (assets: seq<Asset>)
    ensures assets == Assets(links, "-css", false)
  {
    assets := CollectAssets(links, "-css", false);
  }

  /** The two copies differ only in the version parameter: a plugin asset
      url keeps it here and loses it in the test suite helpers. */
  lemma VersionKeptOnlyHere(host: string, slug: string, path: string, v: string)
    requires host != [] && '/' !in host && slug != [] && '/' !in slug
    requires forall i :: !VersionParamAt(path, i)
    requires v != [] && forall m :: 0 <= m < |v| ==> IsVersionChar(v[m])
    ensures var url := HttpScheme + host + "/" + PluginsDir + slug + "/" + (path + "?ver=" + v);
      NormalizeUrl(url, false) == path + "?ver=" + v && NormalizeUrl(url, true) == path
  {
    var tail := path + "?ver=" + v;
    StripHostPrefixOfPluginAsset(host, slug, tail);
    StripTrailingVersion(path, v);
  }
}
